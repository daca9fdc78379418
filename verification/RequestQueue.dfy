/** The queue of running HTTP requests (front/src/http/request-queue.ts). */
module RequestQueues {
  import opened Collections

  /** A running request: its id, which other requests may share, and the messages its cancel executor was called
      with. */
  class Request {
    const requestId: string
    var cancelled: seq<string>

    constructor (id: string)
      ensures requestId == id && cancelled == []
    {
      requestId := id;
      cancelled := [];
    }

    method CancelExcutor(msg: string)
      modifies this`cancelled
      ensures cancelled == old(cancelled) + [msg]
    {
      cancelled := cancelled + [msg];
    }
  }

  /** Which requests to cancel: all, those of several ids, or those of one. */
  datatype Target = All | Ids(ids: seq<string>) | Id(id: string)

  // ----- queues as values -----

  function WithId(queue: seq<Request>, id: string): seq<Request> {
    if queue == [] then []
    else
      var last := queue[|queue| - 1];
      var init := WithId(queue[..|queue| - 1], id);
      if last.requestId == id then init + [last] else init
  }

  /** The requests of other ids, in their order. */
  function WithoutIds(queue: seq<Request>, ids: set<string>): seq<Request> {
    if queue == [] then []
    else
      var last := queue[|queue| - 1];
      var init := WithoutIds(queue[..|queue| - 1], ids);
      if last.requestId in ids then init else init + [last]
  }

  function WithAnyId(queue: seq<Request>, ids: seq<string>): seq<Request> {
    if ids == [] then [] else WithAnyId(queue, ids[..|ids| - 1]) + WithId(queue, ids[|ids| - 1])
  }

  /** The requests `cancel` goes through, in its order. */
  function CancelQueue(queue: seq<Request>, target: Target): seq<Request> {
    match target
    case All => queue
    case Ids(ids) => WithAnyId(queue, ids)
    case Id(id) => WithId(queue, id)
  }

  predicate Hits(target: Target, id: string) {
    match target
    case All => true
    case Ids(ids) => id in ids
    case Id(i) => i == id
  }

  function IdsOf(queue: seq<Request>): set<string> {
    set r | r in queue :: r.requestId
  }

  function Message(msg: string, r: Request): string {
    msg + ": " + r.requestId
  }

  function Repeated(s: string, n: nat): seq<string> {
    seq(n, _ => s)
  }

  /** What the executor of `r` is called with when the requests of `cancelQueue` are cancelled in turn. */
  function Told(cancelQueue: seq<Request>, msg: string, r: Request): seq<string> {
    Repeated(Message(msg, r), multiset(cancelQueue)[r])
  }

  lemma ToldStep(cancelQueue: seq<Request>, i: nat, msg: string, r: Request)
    requires i < |cancelQueue|
    ensures Told(cancelQueue[..i + 1], msg, r) ==
            if r == cancelQueue[i] then Told(cancelQueue[..i], msg, r) + [Message(msg, r)]
            else Told(cancelQueue[..i], msg, r)
  {
    assert cancelQueue[..i + 1] == cancelQueue[..i] + [cancelQueue[i]];
  }

  lemma {:induction false} WithIdMembers(queue: seq<Request>, id: string)
    ensures forall r: Request :: r in WithId(queue, id) <==> r in queue && r.requestId == id
    ensures forall r: Request | r.requestId == id :: multiset(WithId(queue, id))[r] == multiset(queue)[r]
  {
    if queue != [] {
      var init, last := queue[..|queue| - 1], queue[|queue| - 1];
      WithIdMembers(init, id);
      assert queue == init + [last];
    }
  }

  lemma {:induction false} WithAnyIdMembers(queue: seq<Request>, ids: seq<string>)
    ensures forall r: Request :: r in WithAnyId(queue, ids) <==> r in queue && r.requestId in ids
  {
    if ids != [] {
      var init, last := ids[..|ids| - 1], ids[|ids| - 1];
      WithAnyIdMembers(queue, init);
      WithIdMembers(queue, last);
      assert ids == init + [last];
    }
  }

  /** An id given n times finds each of its requests n times. */
  lemma {:induction false} WithAnyIdCount(queue: seq<Request>, ids: seq<string>, r: Request)
    requires NoDuplicates(queue)
    ensures multiset(WithAnyId(queue, ids))[r] == if r in queue then multiset(ids)[r.requestId] else 0
  {
    DistinctOnce(queue, r);
    if ids != [] {
      var init, last := ids[..|ids| - 1], ids[|ids| - 1];
      WithAnyIdCount(queue, init, r);
      WithIdMembers(queue, last);
      assert ids == init + [last];
      assert r.requestId != last ==> r !in WithId(queue, last);
    }
  }

  lemma CancelQueueMembers(queue: seq<Request>, target: Target)
    ensures forall r: Request :: r in CancelQueue(queue, target) <==> r in queue && Hits(target, r.requestId)
  {
    match target {
      case All =>
      case Ids(ids) => WithAnyIdMembers(queue, ids);
      case Id(id) => WithIdMembers(queue, id);
    }
  }

  lemma {:induction false} DistinctOnce<T>(xs: seq<T>, x: T)
    requires NoDuplicates(xs)
    ensures multiset(xs)[x] == if x in xs then 1 else 0
  {
    if xs != [] {
      var init, last := xs[..|xs| - 1], xs[|xs| - 1];
      DistinctOnce(init, x);
      assert xs == init + [last];
      assert last !in init;
    }
  }

  /** With ids given once each, every request that is cancelled is cancelled once. */
  lemma CancelledOnce(queue: seq<Request>, target: Target, r: Request)
    requires NoDuplicates(queue) && (target.Ids? ==> NoDuplicates(target.ids))
    ensures multiset(CancelQueue(queue, target))[r] == if r in queue && Hits(target, r.requestId) then 1 else 0
    ensures forall msg :: Told(CancelQueue(queue, target), msg, r) ==
                          if r in queue && Hits(target, r.requestId) then [msg + ": " + r.requestId] else []
  {
    DistinctOnce(queue, r);
    match target {
      case All =>
      case Ids(ids) =>
        DistinctOnce(ids, r.requestId);
        WithAnyIdCount(queue, ids, r);
      case Id(id) =>
        WithIdMembers(queue, id);
        assert r.requestId != id ==> r !in WithId(queue, id);
    }
  }

  /** An id given n times cancels each of its requests n times. */
  lemma CancelledAsOftenAsGiven(queue: seq<Request>, ids: seq<string>, r: Request)
    requires NoDuplicates(queue) && r in queue
    ensures multiset(CancelQueue(queue, Ids(ids)))[r] == multiset(ids)[r.requestId]
  {
    DistinctOnce(queue, r);
    WithAnyIdCount(queue, ids, r);
  }

  lemma {:induction false} WithoutMembers(queue: seq<Request>, ids: set<string>)
    ensures forall r: Request :: r in WithoutIds(queue, ids) <==> r in queue && r.requestId !in ids
  {
    if queue != [] {
      var init, last := queue[..|queue| - 1], queue[|queue| - 1];
      WithoutMembers(init, ids);
      assert queue == init + [last];
    }
  }

  lemma {:induction false} WithoutMore(queue: seq<Request>, ids: set<string>, id: string)
    ensures WithoutIds(WithoutIds(queue, ids), {id}) == WithoutIds(queue, ids + {id})
  {
    if queue != [] {
      var init, last := queue[..|queue| - 1], queue[|queue| - 1];
      WithoutMore(init, ids, id);
      var kept := WithoutIds(init, ids);
      if last.requestId !in ids {
        assert (kept + [last])[..|kept|] == kept;
      }
    }
  }

  lemma {:induction false} WithoutNothing(queue: seq<Request>)
    ensures WithoutIds(queue, {}) == queue
  {
    if queue != [] {
      WithoutNothing(queue[..|queue| - 1]);
    }
  }

  /** `part` is `whole` with some elements left out. */
  predicate InOrder(part: seq<Request>, whole: seq<Request>) {
    part == [] ||
    (whole != [] &&
     (InOrder(part, whole[..|whole| - 1]) ||
      (part[|part| - 1] == whole[|whole| - 1] && InOrder(part[..|part| - 1], whole[..|whole| - 1]))))
  }

  lemma WithIdStep(queue: seq<Request>, i: nat, id: string)
    requires i < |queue|
    ensures WithId(queue[..i + 1], id) ==
            if queue[i].requestId == id then WithId(queue[..i], id) + [queue[i]] else WithId(queue[..i], id)
  {
    assert queue[..i + 1][..i] == queue[..i];
  }

  /** What `get` finds for an id: each of its requests as often as it is queued, nothing else, in queue order. */
  lemma {:induction false} GetFindsTheId(queue: seq<Request>, id: string)
    ensures InOrder(WithId(queue, id), queue)
    ensures forall r: Request :: multiset(WithId(queue, id))[r] == if r.requestId == id then multiset(queue)[r] else 0
  {
    if queue != [] {
      var init, last := queue[..|queue| - 1], queue[|queue| - 1];
      GetFindsTheId(init, id);
      var found := WithId(init, id);
      assert queue == init + [last];
      assert (found + [last])[..|found|] == found;
    }
  }

  lemma WithoutStep(queue: seq<Request>, i: nat, ids: set<string>)
    requires i < |queue|
    ensures WithoutIds(queue[..i + 1], ids) ==
            if queue[i].requestId in ids then WithoutIds(queue[..i], ids) else WithoutIds(queue[..i], ids) + [queue[i]]
  {
    assert queue[..i + 1][..i] == queue[..i];
  }

  /** What is left without some ids: every other request as often as it was queued, in queue order. */
  lemma {:induction false} DeleteKeepsTheOthers(queue: seq<Request>, ids: set<string>)
    ensures InOrder(WithoutIds(queue, ids), queue)
    ensures forall r: Request ::
              multiset(WithoutIds(queue, ids))[r] == if r.requestId in ids then 0 else multiset(queue)[r]
  {
    if queue != [] {
      var init, last := queue[..|queue| - 1], queue[|queue| - 1];
      DeleteKeepsTheOthers(init, ids);
      var left := WithoutIds(init, ids);
      assert queue == init + [last];
      assert (left + [last])[..|left|] == left;
    }
  }

  // ----- the queue object -----

  class RequestQueue {
    var queue: seq<Request>

    constructor ()
      ensures queue == []
    {
      queue := [];
    }

    /** All requests, or those with the given id, in order. */
    method Get(id: Target) returns (found: seq<Request>)
      requires !id.Ids?
      ensures found == CancelQueue(queue, id)
    {
      if id.All? {
        return queue;
      }
      found := [];
      for i := 0 to |queue|
        invariant found == WithId(queue[..i], id.id)
      {
        WithIdStep(queue, i, id.id);
        if queue[i].requestId == id.id {
          found := found + [queue[i]];
        }
      }
      assert queue[..|queue|] == queue;
    }

    method Set(newRequest: Request)
      modifies this`queue
      ensures queue == old(queue) + [newRequest]
    {
      queue := queue + [newRequest];
    }

    method Delete(id: string)
      modifies this`queue
      ensures queue == WithoutIds(old(queue), {id})
    {
      var left := [];
      for i := 0 to |queue|
        invariant queue == old(queue) && left == WithoutIds(queue[..i], {id})
      {
        WithoutStep(queue, i, {id});
        if queue[i].requestId != id {
          left := left + [queue[i]];
        }
      }
      assert queue[..|queue|] == queue;
      queue := left;
    }

    /** Takes the requests of the given ids off the queue, leaving the others in order, and calls the executor of each
        of them as often as it is in the list to be cancelled. */
    method Cancel(target: Target, msg: string)
      modifies this`queue, queue
      ensures queue == WithoutIds(old(queue), IdsOf(CancelQueue(old(queue), target)))
      ensures forall r | r in old(queue) ::
                r.cancelled == old(r.cancelled) + Told(CancelQueue(old(queue), target), msg, r)
    {
      var cancelQueue := [];
      if target.All? {
        cancelQueue := queue;
      } else if target.Ids? {
        for i := 0 to |target.ids|
          invariant queue == old(queue)
          invariant cancelQueue == WithAnyId(queue, target.ids[..i])
          invariant forall r | r in old(queue) :: r.cancelled == old(r.cancelled)
        {
          assert target.ids[..i + 1][..i] == target.ids[..i];
          var cancelRequest := Get(Id(target.ids[i]));
          cancelQueue := cancelQueue + cancelRequest;
        }
        assert target.ids[..|target.ids|] == target.ids;
      } else {
        cancelQueue := Get(target);
      }
      CancelQueueMembers(queue, target);
      CancelEach(cancelQueue, msg);
    }

    /** The loop over the requests to cancel: delete the id, call the executor. */
    method CancelEach(cancelQueue: seq<Request>, msg: string)
      requires forall r | r in cancelQueue :: r in queue
      modifies this`queue, queue
      ensures queue == WithoutIds(old(queue), IdsOf(cancelQueue))
      ensures forall r | r in old(queue) ::
                r.cancelled == old(r.cancelled) + Told(cancelQueue, msg, r)
    {
      WithoutNothing(queue);
      assert IdsOf(cancelQueue[..0]) == {};
      for i := 0 to |cancelQueue|
        invariant queue == WithoutIds(old(queue), IdsOf(cancelQueue[..i]))
        invariant forall r | r in old(queue) :: r.cancelled == old(r.cancelled) + Told(cancelQueue[..i], msg, r)
      {
        var request := cancelQueue[i];
        assert request in cancelQueue;
        IdsStep(cancelQueue, i);
        WithoutMore(old(queue), IdsOf(cancelQueue[..i]), request.requestId);
        Delete(request.requestId);
        request.CancelExcutor(Message(msg, request));
        forall r | r in old(queue) {
          ToldStep(cancelQueue, i, msg, r);
        }
      }
      assert cancelQueue[..|cancelQueue|] == cancelQueue;
    }
  }

  lemma IdsStep(queue: seq<Request>, i: nat)
    requires i < |queue|
    ensures IdsOf(queue[..i + 1]) == IdsOf(queue[..i]) + {queue[i].requestId}
  {
    assert queue[..i + 1] == queue[..i] + [queue[i]];
  }

  /** After a cancel the requests of the given ids are gone and all others are left, in order. */
  lemma {:induction false} CancelLeavesTheOthers(queue: seq<Request>, target: Target)
    ensures var left := WithoutIds(queue, IdsOf(CancelQueue(queue, target)));
            && (forall r: Request :: r in left <==> r in queue && !Hits(target, r.requestId))
            && (target.Ids? ==> left == WithoutIds(queue, set id | id in target.ids))
  {
    var ids := IdsOf(CancelQueue(queue, target));
    CancelQueueMembers(queue, target);
    WithoutMembers(queue, ids);
    forall r | r in queue ensures r.requestId in ids <==> Hits(target, r.requestId) {
      if r.requestId in ids {
        var s :| s in CancelQueue(queue, target) && s.requestId == r.requestId;
      }
    }
    if target.Ids? {
      WithoutAgrees(queue, ids, set id | id in target.ids);
    }
  }

  lemma {:induction false} WithoutAgrees(queue: seq<Request>, a: set<string>, b: set<string>)
    requires forall r | r in queue :: r.requestId in a <==> r.requestId in b
    ensures WithoutIds(queue, a) == WithoutIds(queue, b)
  {
    if queue != [] {
      var init, last := queue[..|queue| - 1], queue[|queue| - 1];
      assert last in queue;
      WithoutAgrees(init, a, b);
    }
  }
}
