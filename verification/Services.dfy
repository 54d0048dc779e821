/** A main work queue together with a resource that its tasks may have to wait for: what a
    sequence of calls does to both. */
module Services {
  import opened Arbiters

  /** A task asks for the resource, its holder hands it on, somebody adds a task to the main
      queue, or the main loop takes a task from there. */
  datatype Call<T> = Ask(task: T) | HandOn | Post(task: T) | Loop

  /** What a call puts in the main queue: a task that is granted the resource, or one that
      somebody adds. A task that is granted the resource while it is queued is not put there. */
  datatype Put<T> = Granted(task: T) | Posted(task: T) | GrantedQueued(task: T)

  datatype Service<T(==)> = Service(arbiter: Arbiter<T>, main: seq<T>, elsewhere: set<T>)
  {
    /** Whether a task is in one of the queues. */
    predicate Queued(t: T)
    {
      t in Waiting(arbiter) || t in main || t in elsewhere
    }

    /** What a call means for the resource: a task that is queued is not heard while somebody
        holds it. */
    function Events(c: Call<T>): seq<Event<T>>
    {
      match c
      case Ask(t) => if Queued(t) && arbiter.Held? then [] else [Requested(t)]
      case HandOn => [Released]
      case Post(_) => []
      case Loop => []
    }

    function Puts(c: Call<T>): seq<Put<T>>
    {
      match c
      case Ask(t) => if arbiter.Held? then [] else if Queued(t) then [GrantedQueued(t)] else [Granted(t)]
      case HandOn => if Waiting(arbiter) == [] then [] else [Granted(Waiting(arbiter)[0])]
      case Post(t) => if Queued(t) then [] else [Posted(t)]
      case Loop => []
    }

    /** The task the main loop runs. */
    function Ran(c: Call<T>): seq<T>
    {
      if c.Loop? && main != [] then [main[0]] else []
    }

    function After(c: Call<T>): Service<T>
    {
      Service(Run(arbiter, Events(c)), (main + Tasks(Puts(c)))[|Ran(c)|..], elsewhere)
    }
  }

  /** The tasks that get into the main queue. */
  function Tasks<T>(puts: seq<Put<T>>): seq<T>
  {
    if puts == [] then [] else (if puts[0].GrantedQueued? then [] else [puts[0].task]) + Tasks(puts[1..])
  }

  /** The tasks that are granted the resource. */
  function Grantees<T>(puts: seq<Put<T>>): seq<T>
  {
    if puts == [] then [] else (if puts[0].Posted? then [] else [puts[0].task]) + Grantees(puts[1..])
  }

  // ---- Runs ----

  function AfterAll<T(==)>(s: Service<T>, calls: seq<Call<T>>): Service<T>
    decreases calls
  {
    if calls == [] then s else AfterAll(s.After(calls[0]), calls[1..])
  }

  function AllEvents<T(==)>(s: Service<T>, calls: seq<Call<T>>): seq<Event<T>>
    decreases calls
  {
    if calls == [] then [] else s.Events(calls[0]) + AllEvents(s.After(calls[0]), calls[1..])
  }

  function AllPuts<T(==)>(s: Service<T>, calls: seq<Call<T>>): seq<Put<T>>
    decreases calls
  {
    if calls == [] then [] else s.Puts(calls[0]) + AllPuts(s.After(calls[0]), calls[1..])
  }

  function AllRan<T(==)>(s: Service<T>, calls: seq<Call<T>>): seq<T>
    decreases calls
  {
    if calls == [] then [] else s.Ran(calls[0]) + AllRan(s.After(calls[0]), calls[1..])
  }

  /** The resource goes through a run of its arbiter, and what the calls grant is what the
      arbiter grants. */
  lemma {:induction false} RunsArbiter<T>(s: Service<T>, calls: seq<Call<T>>)
    ensures AfterAll(s, calls).arbiter == Run(s.arbiter, AllEvents(s, calls))
    ensures Grantees(AllPuts(s, calls)) == Grants(s.arbiter, AllEvents(s, calls))
    decreases calls
  {
    if calls == [] {
      NoEvent(s.arbiter);
    } else {
      var c, rest := calls[0], calls[1..];
      var t := s.After(c);
      RunsArbiter(t, rest);
      OneCall(s, c);
      EventsApart(s.arbiter, s.Events(c), AllEvents(t, rest));
      GranteesApart(s.Puts(c), AllPuts(t, rest));
    }
  }

  lemma AfterIs<T>(s: Service<T>, c: Call<T>)
    ensures s.After(c) ==
      match c
      case Ask(t) =>
        if s.arbiter.Held? && s.Queued(t) then s
        else
          var queue := if s.arbiter.Held? || s.Queued(t) then s.main else s.main + [t];
          Service(s.arbiter.Request(t), queue, s.elsewhere)
      case HandOn => Service(s.arbiter.Release(), s.main + Grant(s.arbiter, Released), s.elsewhere)
      case Post(t) => if s.Queued(t) then s else Service(s.arbiter, s.main + [t], s.elsewhere)
      case Loop => if s.main == [] then s else Service(s.arbiter, s.main[1..], s.elsewhere)
  {
    hide Tasks;
    OneEvent(s.arbiter, s.Events(c));
    NoTasks<T>();
    forall p: Put<T>
      ensures Tasks([p]) == if p.GrantedQueued? then [] else [p.task]
    {
      OneTask(p);
    }
  }

  lemma OneTask<T>(p: Put<T>)
    ensures Tasks([p]) == if p.GrantedQueued? then [] else [p.task]
  {
    assert [p][1..] == [];
  }

  lemma OneCall<T>(s: Service<T>, c: Call<T>)
    ensures Grantees(s.Puts(c)) == Grants(s.arbiter, s.Events(c))
    ensures s.Ran(c) + s.After(c).main == s.main + Tasks(s.Puts(c))
  {
    OneEvent(s.arbiter, s.Events(c));
  }

  /** The main loop runs what was in the main queue and what has been put there, in this
      order, and nothing else. */
  lemma {:induction false} RunsInOrder<T>(s: Service<T>, calls: seq<Call<T>>)
    ensures AllRan(s, calls) + AfterAll(s, calls).main == s.main + Tasks(AllPuts(s, calls))
    decreases calls
  {
    hide Service.Puts;
    hide Service.Ran;
    hide Service.After;
    hide Tasks;
    if calls == [] {
      NoTasks<T>();
    } else {
      var c, rest := calls[0], calls[1..];
      var t := s.After(c);
      RunsInOrder(t, rest);
      OneCall(s, c);
      TasksApart(s.Puts(c), AllPuts(t, rest));
      Rejoin(s.Ran(c), AllRan(t, rest), AfterAll(t, rest).main, t.main, Tasks(AllPuts(t, rest)),
             s.main, Tasks(s.Puts(c)));
    }
  }

  lemma NoTasks<T>()
    ensures Tasks<T>([]) == []
  {
  }

  lemma Rejoin<T>(ran: seq<T>, more: seq<T>, main'': seq<T>, main': seq<T>, puts': seq<T>, main: seq<T>, puts: seq<T>)
    requires more + main'' == main' + puts' && ran + main' == main + puts
    ensures (ran + more) + main'' == main + (puts + puts')
  {
    assert (ran + more) + main'' == ran + (more + main'');
    assert ran + (main' + puts') == (ran + main') + puts';
  }

  lemma {:induction false} GranteesApart<T>(a: seq<Put<T>>, b: seq<Put<T>>)
    ensures Grantees(a + b) == Grantees(a) + Grantees(b)
  {
    if a == [] {
      assert a + b == b;
    } else {
      assert (a + b)[1..] == a[1..] + b;
      GranteesApart(a[1..], b);
    }
  }

  lemma {:induction false} TasksApart<T>(a: seq<Put<T>>, b: seq<Put<T>>)
    ensures Tasks(a + b) == Tasks(a) + Tasks(b)
  {
    if a == [] {
      assert a + b == b;
    } else {
      assert (a + b)[1..] == a[1..] + b;
      TasksApart(a[1..], b);
    }
  }

  /** Nobody adds tasks to the main queue, and no task asks while it is queued. */
  ghost predicate OnlyAsked<T>(s: Service<T>, calls: seq<Call<T>>)
    decreases calls
  {
    calls != [] ==>
      && !calls[0].Post? && (calls[0].Ask? ==> !s.Queued(calls[0].task))
      && OnlyAsked(s.After(calls[0]), calls[1..])
  }

  /** Then the main queue gets exactly the tasks that are granted the resource, and every
      request is heard. */
  lemma {:induction false} OnlyGranted<T>(s: Service<T>, calls: seq<Call<T>>)
    requires OnlyAsked(s, calls)
    ensures Tasks(AllPuts(s, calls)) == Grants(s.arbiter, AllEvents(s, calls))
    decreases calls
  {
    RunsArbiter(s, calls);
    AllGranted(s, calls);
    TasksGranted(AllPuts(s, calls));
  }

  lemma {:induction false} AllGranted<T>(s: Service<T>, calls: seq<Call<T>>)
    requires OnlyAsked(s, calls)
    ensures forall p | p in AllPuts(s, calls) :: p.Granted?
    decreases calls
  {
    if calls != [] {
      AllGranted(s.After(calls[0]), calls[1..]);
    }
  }

  lemma {:induction false} TasksGranted<T>(puts: seq<Put<T>>)
    requires forall p | p in puts :: p.Granted?
    ensures Tasks(puts) == Grantees(puts)
  {
    if puts != [] {
      assert puts[0].Granted?;
      TasksGranted(puts[1..]);
    }
  }
}
