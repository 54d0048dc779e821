/** Work queues and nested work queues. A task is the list node inside it, and it counts as
    queued as long as that node's `next` is not null. */
module Workqueue {
  import opened Arbiters
  import opened Services
  import opened Slist

  /** All queues and all tasks of a program. */
  datatype World = World(queues: set<List>, tasks: set<Node>)
  {
    ghost function Sentinels(): set<Node>
    {
      set q | q in queues :: q.first
    }

    ghost predicate Valid()
      reads queues, Sentinels(), tasks
    {
      && (forall q | q in queues :: Holds(q))
      && SentinelsDiffer()
      && (forall t | t in tasks :: Flagged(t))
    }

    ghost predicate SentinelsDiffer()
    {
      forall q, r | q in queues && r in queues && q != r :: q.first != r.first
    }

    /** Everything is in order but for the task `n`, which is in no queue. */
    ghost predicate ValidExcept(n: Node)
      reads queues, Sentinels(), tasks
    {
      && (forall q | q in queues :: Holds(q) && Foreign(q, n))
      && SentinelsDiffer()
      && (forall t | t in tasks && t != n :: Flagged(t))
    }

    /** A queue is a well-formed list of tasks that are at home there. */
    ghost predicate Holds(q: List)
      reads q, q.first, tasks
    {
      && q.first !in tasks && (forall n | n in q.s :: n in tasks && n.home == q)
      && (q.last == q.first || q.last in tasks) && q.Valid()
    }

    /** The node is no part of the queue. */
    ghost predicate Foreign(q: List, n: Node)
      reads q
    {
      n != q.first && n !in q.s && n != q.last
    }

    /** A task's node points somewhere exactly if the task is in the queue it is at home in. */
    ghost predicate Flagged(t: Node)
      reads t, queues
    {
      && (t.next != null <==> t.home != null)
      && (t.home != null ==> t.home in queues && t in t.home.s)
    }
  }

  /** Appends a task that is in no queue. */
  method Link(queue: List, task: Node, ghost w: World)
    requires w.Valid() && queue in w.queues && task in w.tasks && task.home == null
    modifies queue`last, queue`s, queue.last`next, task
    ensures w.Valid() && queue.s == old(queue.s) + [task] && task.home == queue
  {
    assert forall q | q in w.queues && q != queue :: w.Foreign(q, queue.last) && w.Foreign(q, task);
    assert w.Holds(queue);
    hide List.Valid;
    hide List.Chained;
    hide World.SentinelsDiffer;
    queue.InsertTail(task);
    queue.NoneNull();
    task.home := queue;
    assert w.Holds(queue);
    assert forall q | q in w.queues && q != queue :: w.Holds(q);
  }

  /** Appends a task to a queue unless it is in some queue already. */
  method AddTask(queue: List, task: Node?, ghost w: World) returns (queued: bool)
    requires w.Valid() && queue in w.queues && (task == null || task in w.tasks)
    modifies queue`last, queue`s, queue.last`next, task
    ensures w.Valid()
    ensures queued <==> task != null && old(task.home) == null
    ensures queue.s == if queued then old(queue.s) + [task] else old(queue.s)
    ensures task != null ==> task.home == if queued then queue else old(task.home)
  {
    if task == null {
      return false;
    }
    queued := false;
    if task.next == null {
      Link(queue, task, w);
      queued := true;
    }
  }

  /** Makes a task ready for use; it must not be in a queue. */
  method TaskInit(task: Node, ghost w: World)
    requires task in w.tasks && w.ValidExcept(task)
    modifies task
    ensures w.Valid() && task.home == null
  {
    hide List.Chained;
    task.next := null;
    task.home := null;
  }

  /** Takes the first task off a queue that is not empty. */
  method Unlink(queue: List, ghost w: World) returns (task: Node)
    requires w.Valid() && queue in w.queues && queue.s != []
    modifies queue`last, queue`s, queue.first`next
    ensures task in w.tasks && w.ValidExcept(task) && old(queue.s) == [task] + queue.s
    ensures task == old(queue.first.next) && task.home == queue
  {
    assert w.Holds(queue);
    assert forall q | q in w.queues && q != queue :: w.Foreign(q, queue.s[0]) && w.Foreign(q, queue.first);
    hide List.Valid;
    hide List.Chained;
    task := queue.PopHead();
    assert forall n | n in queue.s :: n in old(queue.s);
    assert w.Holds(queue);
  }

  /** Takes the first task off a queue, or returns null exactly if the queue is empty. */
  method PopTask(queue: List, ghost w: World) returns (task: Node?)
    requires w.Valid() && queue in w.queues
    modifies queue`last, queue`s, queue.first`next, queue.first.next
    ensures w.Valid()
    ensures if old(queue.s) == [] then task == null && queue.s == []
            else task != null && task in w.tasks && old(queue.s) == [task] + queue.s && task.home == null
    ensures task != null ==> task == old(queue.first.next) && old(task.home) == queue
    ensures forall t | t in w.tasks && t != task :: t.home == old(t.home)
  {
    task := null;
    var empty := queue.IsEmpty();
    if !empty {
      var node := Unlink(queue, w);
      TaskInit(node, w);
      task := node;
    }
  }

  /** A task's node points somewhere exactly if it is in a queue, and it is in at most one. */
  lemma QueuedOnce(w: World, t: Node)
    requires w.Valid() && t in w.tasks
    ensures t.next != null <==> exists q :: q in w.queues && t in q.s
    ensures forall q, r | q in w.queues && r in w.queues && t in q.s && t in r.s :: q == r
  {
    hide List.Valid;
    assert w.Flagged(t);
    if q :| q in w.queues && t in q.s {
      assert w.Holds(q) && t.home == q;
    }
  }

  class NestedQueue {
    const wq: List              // the tasks that wait
    var current: Node?          // the task that holds the resource

    constructor ()
      ensures Sound() && View() == Idle
      ensures fresh(wq) && fresh(wq.first) && wq.Valid() && wq.s == [] && wq.last == wq.first
    {
      wq := new List();
      current := null;
    }

    /** Nobody waits while nobody holds the resource. */
    ghost predicate Sound()
      reads this, wq
    {
      current == null ==> wq.s == []
    }

    ghost function View(): Arbiter<Node>
      reads this, wq
    {
      if current == null then Idle else var holder: Node := current; Held(holder, wq.s)
    }

    /** Requests the resource for a task. If the task is queued already and nobody holds the
        resource, the task becomes the holder all the same. */
    method Add(task: Node?, main: List, ghost w: World) returns (queued: bool)
      requires w.Valid() && wq in w.queues && main in w.queues && main != wq && Sound()
      requires task == null || task in w.tasks
      modifies this, wq`last, wq`s, wq.last`next, main`last, main`s, main.last`next, task
      ensures w.Valid() && Sound()
      ensures queued <==> task != null && old(task.home) == null
      ensures queued ==> View() == old(View()).Request(task)
      ensures main.s == if queued && old(View()).Idle? then old(main.s) + [task] else old(main.s)
      ensures task != null && !queued ==> task.home == old(task.home)
      ensures queued ==> task.home == if old(View()).Idle? then main else wq
      ensures !queued ==> wq.s == old(wq.s) && current == (if old(current) == null then task else old(current))
      ensures task != null && old(task.home) != null ==> (View() == old(View()) <==> old(current) != null)
    {
      if current != null {
        queued := AddTask(wq, task, w);
      } else {
        current := task;
        queued := AddTask(main, task, w);
      }
    }

    /** Hands the resource to the next task in line, if there is one. */
    method NextTask(main: List, ghost w: World)
      requires w.Valid() && wq in w.queues && main in w.queues && main != wq && Sound()
      modifies this, wq`last, wq`s, wq.first`next, wq.first.next, main`last, main`s, main.last`next
      ensures w.Valid() && Sound()
      ensures View() == old(View()).Release()
      ensures main.s == old(main.s) + Grant(old(View()), Released)
      ensures forall t | t in w.tasks && t.home != old(t.home) :: old(t.home) == wq && t.home == main
    {
      hide World.Holds;
      hide World.Flagged;
      hide World.SentinelsDiffer;
      var task := PopTask(wq, w);
      if task != null {
        var _ := AddTask(main, task, w);
      }
      current := task;
    }

    /** The main loop cannot see tasks that wait. */
    lemma WaitingNotInMain(main: List, w: World)
      requires w.Valid() && wq in w.queues && main in w.queues && main != wq
      ensures forall t | t in wq.s :: t !in main.s
    {
      hide List.Valid;
      assert w.Holds(wq) && w.Holds(main);
    }
  }

  /** A queue is changed at its sentinel and at tasks only. */
  lemma EndsInWorld(q: List, w: World)
    requires w.Valid() && q in w.queues
    ensures (q.last == q.first || q.last in w.tasks) && (q.first.next == q.first || q.first.next in w.tasks)
  {
    assert w.Holds(q);
  }

  /** A nested queue, the main queue, and the tasks that are in other queues. */
  ghost function ServiceOf(nested: NestedQueue, main: List, w: World): Service<Node>
    reads nested, nested.wq, main, w.tasks
  {
    Service(nested.View(), main.s, Elsewhere(nested.wq, main, w))
  }

  ghost function Elsewhere(wq: List, main: List, w: World): set<Node>
    reads w.tasks
  {
    set t | t in w.tasks && t.home != null && t.home != main && t.home != wq
  }

  /** A task is in one of these queues exactly if it is in a queue. */
  lemma QueuedIff(nested: NestedQueue, main: List, w: World, t: Node)
    requires w.Valid() && nested.wq in w.queues && main in w.queues && main != nested.wq && nested.Sound()
    requires t in w.tasks
    ensures ServiceOf(nested, main, w).Queued(t) <==> t.home != null
  {
    hide List.Valid;
    assert w.Flagged(t) && w.Holds(main) && w.Holds(nested.wq);
  }

  /** A call on the real queues is a step of the service. */
  method ServeOne(nested: NestedQueue, main: List, call: Call<Node>, ghost w: World) returns (ran: seq<Node>)
    requires w.Valid() && nested.wq in w.queues && main in w.queues && main != nested.wq && nested.Sound()
    requires call.Ask? || call.Post? ==> call.task in w.tasks
    modifies nested, nested.wq`last, nested.wq`s, nested.wq.first, main`last, main`s, main.first, w.tasks
    ensures w.Valid() && nested.Sound()
    ensures ServiceOf(nested, main, w) == old(ServiceOf(nested, main, w)).After(call)
    ensures ran == old(ServiceOf(nested, main, w)).Ran(call)
  {
    hide World.Valid;
    hide List.Valid;
    hide Service.After;
    EndsInWorld(nested.wq, w);
    EndsInWorld(main, w);
    AfterIs(ServiceOf(nested, main, w), call);
    ghost var elsewhere := Elsewhere(nested.wq, main, w);
    ran := [];
    match call {
      case Ask(task) =>
        QueuedIff(nested, main, w, task);
        var _ := nested.Add(task, main, w);
      case HandOn =>
        nested.NextTask(main, w);
      case Post(task) =>
        QueuedIff(nested, main, w, task);
        var _ := AddTask(main, task, w);
      case Loop =>
        var task := PopTask(main, w);
        if task != null {
          ran := [task];
        }
    }
    assert Elsewhere(nested.wq, main, w) == elsewhere;
  }

  /** Any sequence of calls on real queues is a run of the service: what the main loop runs,
      who holds the resource, who waits for it and what is left in the main queue are exactly
      what the service says. */
  method Serve(nested: NestedQueue, main: List, calls: seq<Call<Node>>, ghost w: World) returns (ran: seq<Node>)
    requires w.Valid() && nested.wq in w.queues && main in w.queues && main != nested.wq && nested.Sound()
    requires forall c | c in calls && (c.Ask? || c.Post?) :: c.task in w.tasks
    modifies nested, nested.wq`last, nested.wq`s, nested.wq.first, main`last, main`s, main.first, w.tasks
    ensures w.Valid() && nested.Sound()
    ensures ServiceOf(nested, main, w) == AfterAll(old(ServiceOf(nested, main, w)), calls)
    ensures ran == AllRan(old(ServiceOf(nested, main, w)), calls)
  {
    hide World.Valid;
    hide NestedQueue.View;
    hide NestedQueue.Sound;
    hide ServiceOf;
    hide Service.After;
    hide Service.Ran;
    ran := [];
    for i := 0 to |calls|
      invariant w.Valid() && nested.Sound()
      invariant AfterAll(ServiceOf(nested, main, w), calls[i..]) == AfterAll(old(ServiceOf(nested, main, w)), calls)
      invariant ran + AllRan(ServiceOf(nested, main, w), calls[i..]) == AllRan(old(ServiceOf(nested, main, w)), calls)
    {
      var more := ServeOne(nested, main, calls[i], w);
      assert calls[i..][1..] == calls[i + 1..];
      ran := ran + more;
    }
  }

  lemma NothingQueued(w: World)
    requires forall q | q in w.queues :: q.Valid() && q.s == [] && q.last == q.first && q.first !in w.tasks
    requires w.SentinelsDiffer() && forall t | t in w.tasks :: t.next == null && t.home == null
    ensures w.Valid()
  {
    hide List.Chained;
  }

  /** A task that is queued elsewhere becomes the holder of a resource that nobody holds,
      although adding it reports that nothing was done. */
  method QueuedTaskBecomesHolder() returns (queued: bool, holds: bool)
    ensures !queued && holds
  {
    hide World.Valid;
    hide List.Valid;
    var main := new List();
    var other := new List();
    var nested := new NestedQueue();
    var task := new Node();
    ghost var w := World({main, other, nested.wq}, {task});
    NothingQueued(w);
    var added := AddTask(other, task, w);
    queued := nested.Add(task, main, w);
    holds := nested.current == task;
  }
}
