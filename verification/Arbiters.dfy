/** Who holds a resource and who waits for it, and in which order everybody gets it. */
module Arbiters {

  /** A resource that one task holds at a time while others wait for it in line. */
  datatype Arbiter<T> = Idle | Held(holder: T, waiting: seq<T>)
  {
    function Request(t: T): Arbiter<T>
    {
      match this
      case Idle => Held(t, [])
      case Held(h, line) => Held(h, line + [t])
    }

    function Release(): Arbiter<T>
    {
      match this
      case Idle => Idle
      case Held(_, line) => if line == [] then Idle else Held(line[0], line[1..])
    }

    /** The holder and those who wait, in the order in which they are served. */
    function Line(): seq<T>
    {
      if Idle? then [] else [holder] + waiting
    }
  }

  datatype Event<T> = Requested(t: T) | Released

  function Step<T>(a: Arbiter<T>, e: Event<T>): Arbiter<T>
  {
    match e
    case Requested(t) => a.Request(t)
    case Released => a.Release()
  }

  function Run<T>(a: Arbiter<T>, es: seq<Event<T>>): Arbiter<T>
    decreases es
  {
    if es == [] then a else Run(Step(a, es[0]), es[1..])
  }

  function Requests<T>(es: seq<Event<T>>): seq<T>
  {
    if es == [] then [] else (if es[0].Requested? then [es[0].t] else []) + Requests(es[1..])
  }

  function Releases<T>(es: seq<Event<T>>): nat
  {
    if es == [] then 0 else (if es[0].Released? then 1 else 0) + Releases(es[1..])
  }

  /** Only a holder releases. */
  ghost predicate HoldersRelease<T>(a: Arbiter<T>, es: seq<Event<T>>)
    decreases es
  {
    es != [] ==>
      (es[0].Released? ==> a.Held?) && HoldersRelease(Step(a, es[0]), es[1..])
  }

  /** Tasks are served in the order of their requests: who has `k` others before it in line
      holds the resource after `k` releases, whatever else is requested meanwhile, until it
      releases it. */
  lemma {:induction false} ServedInOrder<T>(a: Arbiter<T>, es: seq<Event<T>>)
    requires HoldersRelease(a, es)
    ensures Releases(es) <= |a.Line() + Requests(es)|
    ensures Run(a, es).Line() == (a.Line() + Requests(es))[Releases(es)..]
    decreases es
  {
    hide Arbiter.Line;
    hide HoldersRelease;
    hide Run;
    hide Step;
    if es == [] {
      NoEvent(a);
      assert a.Line() + Requests(es) == a.Line();
    } else {
      FirstEvent(a, es);
      StepLine(a, es[0]);
      ServedInOrder(Step(a, es[0]), es[1..]);
      ServedNext(a.Line(), es[0], Requests(es[1..]), Releases(es[1..]));
    }
  }

  /** What is left of a line, with an event now or with the line it makes later. */
  lemma ServedNext<T>(line: seq<T>, e: Event<T>, requests: seq<T>, n: nat)
    requires e.Released? ==> line != []
    requires n <= |(if e.Released? then line[1..] else line + [e.t]) + requests|
    ensures match e
      case Requested(t) => (line + [t]) + requests == line + ([t] + requests)
      case Released => n + 1 <= |line + requests| && (line[1..] + requests)[n..] == (line + requests)[n + 1..]
  {
  }

  lemma FirstEvent<T>(a: Arbiter<T>, es: seq<Event<T>>)
    requires es != [] && HoldersRelease(a, es)
    ensures var e, rest := es[0], es[1..];
            && Run(a, es) == Run(Step(a, e), rest)
            && HoldersRelease(Step(a, e), rest) && (e.Released? ==> a.Held?)
            && Requests(es) == (if e.Requested? then [e.t] + Requests(rest) else Requests(rest))
            && Releases(es) == Releases(rest) + if e.Released? then 1 else 0
  {
  }

  /** Whoever has `k` others before it among those who wait gets its turn after `k + 1` releases. */
  lemma TurnComes<T>(a: Arbiter<T>, es: seq<Event<T>>, k: nat)
    requires a.Held? && k < |a.waiting| && HoldersRelease(a, es) && Releases(es) == k + 1
    ensures Run(a, es).Held? && Run(a, es).holder == a.waiting[k]
  {
    ServedInOrder(a, es);
    assert Run(a, es).Line()[0] == a.Line()[k + 1];
  }

  lemma StepLine<T>(a: Arbiter<T>, e: Event<T>)
    requires e.Released? ==> a.Held?
    ensures e.Released? ==> a.Line() != []
    ensures Step(a, e).Line() == match e
      case Requested(t) => a.Line() + [t]
      case Released => a.Line()[1..]
  {
  }

  // ---- Who is granted the resource ----

  /** The task, if any, that gets the resource by an event. */
  function Grant<T>(a: Arbiter<T>, e: Event<T>): seq<T>
  {
    match e
    case Requested(t) => if a.Idle? then [t] else []
    case Released => if a.Release().Held? then [a.Release().holder] else []
  }

  function Grants<T>(a: Arbiter<T>, es: seq<Event<T>>): seq<T>
    decreases es
  {
    if es == [] then [] else Grant(a, es[0]) + Grants(Step(a, es[0]), es[1..])
  }

  function Holder<T>(a: Arbiter<T>): seq<T>
  {
    if a.Held? then [a.holder] else []
  }

  function Waiting<T>(a: Arbiter<T>): seq<T>
  {
    if a.Held? then a.waiting else []
  }

  /** Grants follow the order of the requests, nobody is left out and nobody gets more than
      its turn. */
  lemma {:induction false} GrantsInOrder<T>(a: Arbiter<T>, es: seq<Event<T>>)
    ensures Holder(a) + Grants(a, es) + Waiting(Run(a, es)) == a.Line() + Requests(es)
    decreases es
  {
    hide Arbiter.Line;
    hide Holder;
    hide Waiting;
    hide Step;
    hide Grant;
    hide Grants;
    hide Run;
    hide Requests;
    if es == [] {
      NoGrant(a);
    } else {
      FirstGrant(a, es);
      var gone := GrantStep(a, es[0]);
      var b, rest := Step(a, es[0]), es[1..];
      GrantsInOrder(b, rest);
      Rearranged(gone, Holder(a), Grant(a, es[0]), Holder(b), Grants(b, rest), Waiting(Run(a, es)),
                 a.Line(), b.Line(), if es[0].Requested? then [es[0].t] else [], Requests(rest));
    }
  }

  lemma NoGrant<T>(a: Arbiter<T>)
    ensures Holder(a) + Grants(a, []) + Waiting(Run(a, [])) == a.Line() + Requests<T>([])
  {
  }

  lemma FirstGrant<T>(a: Arbiter<T>, es: seq<Event<T>>)
    requires es != []
    ensures Grants(a, es) == Grant(a, es[0]) + Grants(Step(a, es[0]), es[1..])
    ensures Run(a, es) == Run(Step(a, es[0]), es[1..])
    ensures Requests(es) == (if es[0].Requested? then [es[0].t] else []) + Requests(es[1..])
  {
  }

  /** What an event does to the line: those who held the resource leave it in front. */
  lemma GrantStep<T>(a: Arbiter<T>, e: Event<T>) returns (gone: seq<T>)
    ensures Holder(a) + Grant(a, e) == gone + Holder(Step(a, e))
    ensures a.Line() + (if e.Requested? then [e.t] else []) == gone + Step(a, e).Line()
  {
    match e {
      case Requested(t) =>
        gone := [];
        assert Holder(a) + Grant(a, e) == Holder(Step(a, e)) && a.Line() + [t] == Step(a, e).Line();
      case Released =>
        gone := Holder(a);
        assert Grant(a, e) == Holder(Step(a, e)) && Waiting(a) == Step(a, e).Line();
        assert a.Line() == gone + Waiting(a);
    }
  }

  lemma NoEvent<T>(a: Arbiter<T>)
    ensures Run(a, []) == a && Grants(a, []) == []
  {
  }

  lemma OneEvent<T>(a: Arbiter<T>, es: seq<Event<T>>)
    requires |es| <= 1
    ensures Run(a, es) == if es == [] then a else Step(a, es[0])
    ensures Grants(a, es) == if es == [] then [] else Grant(a, es[0])
  {
    if es != [] {
      NoEvent(Step(a, es[0]));
    }
  }

  /** A run may be split at any point. */
  lemma {:induction false} EventsApart<T>(a: Arbiter<T>, first: seq<Event<T>>, rest: seq<Event<T>>)
    ensures Run(a, first + rest) == Run(Run(a, first), rest)
    ensures Grants(a, first + rest) == Grants(a, first) + Grants(Run(a, first), rest)
    decreases first
  {
    hide Run;
    hide Grants;
    hide Requests;
    hide Step;
    hide Grant;
    if first == [] {
      NoEvent(a);
      assert first + rest == rest;
    } else {
      var b := Step(a, first[0]);
      assert (first + rest)[1..] == first[1..] + rest;
      FirstGrant(a, first);
      FirstGrant(a, first + rest);
      EventsApart(b, first[1..], rest);
      Regroup(Grant(a, first[0]), Grants(b, first[1..]), Grants(Run(a, first), rest));
    }
  }

  lemma Regroup<T>(a: seq<T>, b: seq<T>, c: seq<T>)
    ensures a + (b + c) == (a + b) + c
  {
  }

  lemma Rearranged<T>(gone: seq<T>, holder: seq<T>, grant: seq<T>, holder': seq<T>, grants: seq<T>, waiting: seq<T>,
                      line: seq<T>, line': seq<T>, request: seq<T>, requests: seq<T>)
    requires holder + grant == gone + holder' && line + request == gone + line'
    requires holder' + grants + waiting == line' + requests
    ensures holder + (grant + grants) + waiting == line + (request + requests)
  {
    assert holder + (grant + grants) + waiting == (holder + grant) + grants + waiting;
    assert (gone + holder') + grants + waiting == gone + (holder' + grants + waiting);
    assert gone + (line' + requests) == (gone + line') + requests;
    assert (line + request) + requests == line + (request + requests);
  }
}
