/** The concurrency limiter: callers wait in a queue, are resolved one at a time, and resume later. */
module Limiter {
  type Caller = nat

  /** `woken` are the callers whose wait is over but whose code has not run on yet. */
  datatype State = State(limit: nat, active: nat, queue: seq<Caller>, woken: seq<Caller>)

  datatype Event = Call(caller: Caller) | Resume | Finish

  predicate Enabled(s: State, e: Event) {
    match e
    case Call(_) => true
    case Resume => s.woken != []
    case Finish => s.active > 0
  }

  function Next(s: State, e: Event): State
    requires Enabled(s, e)
  {
    match e
    case Call(c) => if s.active >= s.limit then s.(queue := s.queue + [c]) else s.(active := s.active + 1)
    case Resume => s.(active := s.active + 1, woken := s.woken[1..])
    case Finish =>
      if s.queue == [] then s.(active := s.active - 1)
      else s.(active := s.active - 1, queue := s.queue[1..], woken := s.woken + [s.queue[0]])
  }

  class Limiter {
    const limit: nat
    var active: nat
    var queue: seq<Caller>
    var woken: seq<Caller>

    function Current(): State
      reads this
    {
      State(limit, active, queue, woken)
    }

    constructor (limit: nat)
      ensures Current() == Initial(limit)
    {
      this.limit := limit;
      active, queue, woken := 0, [], [];
    }

    /** A caller arrives: it starts at once or waits. */
    method Arrive(c: Caller)
      modifies this
      ensures Current() == Next(old(Current()), Call(c))
    {
      if active >= limit {
        queue := queue + [c];
      } else {
        active := active + 1;
      }
    }

    /** A resolved caller runs on, whatever has happened since. */
    method RunOn()
      requires woken != []
      modifies this
      ensures Current() == Next(old(Current()), Resume)
    {
      active, woken := active + 1, woken[1..];
    }

    method Done()
      requires active > 0
      modifies this
      ensures Current() == Next(old(Current()), Finish)
    {
      active := active - 1;
      if queue != [] {
        woken := woken + [queue[0]];
        queue := queue[1..];
      }
    }
  }

  function Initial(limit: nat): State {
    State(limit, 0, [], [])
  }

  /** The states of a run, first to last. */
  ghost predicate Runs(states: seq<State>, events: seq<Event>) {
    && |states| == |events| + 1
    && states[0] == Initial(states[0].limit)
    && forall i | 0 <= i < |events| :: Enabled(states[i], events[i]) && states[i + 1] == Next(states[i], events[i])
  }

  /** As long as anyone waits, enough callers are running or about to. */
  lemma {:induction false} NoneStranded(states: seq<State>, events: seq<Event>, i: nat)
    requires Runs(states, events) && i < |states|
    ensures states[i].limit == states[0].limit
    ensures states[i].queue != [] ==> states[i].active + |states[i].woken| >= states[i].limit
    ensures states[0].limit > 0 && states[i].active == 0 && states[i].woken == [] ==> states[i].queue == []
  {
    if i > 0 {
      NoneStranded(states, events, i - 1);
    }
  }

  /** When all callers arrive before any finishes, the limit is never exceeded. */
  lemma {:induction false} BurstBounded(states: seq<State>, events: seq<Event>, burst: nat, i: nat)
    requires Runs(states, events) && i < |states| && burst <= |events|
    requires forall j | 0 <= j < |events| :: events[j].Call? <==> j < burst
    ensures states[i].limit == states[0].limit
    ensures states[i].active + |states[i].woken| <= states[i].limit
    ensures i <= burst ==> states[i].woken == []
  {
    if i > 0 {
      BurstBounded(states, events, burst, i - 1);
    }
  }

  // ---------- first come, first served ----------

  /** The callers that had to wait, in the order they came. */
  function Waited(states: seq<State>, events: seq<Event>, i: nat): seq<Caller>
    requires |states| == |events| + 1 && i <= |events|
  {
    if i == 0 then []
    else
      Waited(states, events, i - 1)
      + (if events[i - 1].Call? && states[i - 1].active >= states[i - 1].limit then [events[i - 1].caller] else [])
  }

  /** The waiting callers that have run on, in that order. */
  function Resumed(states: seq<State>, events: seq<Event>, i: nat): seq<Caller>
    requires |states| == |events| + 1 && i <= |events|
  {
    if i == 0 then []
    else Resumed(states, events, i - 1) + (if events[i - 1].Resume? && states[i - 1].woken != [] then [states[i - 1].woken[0]] else [])
  }

  /** In every run callers run on in the order they came, and none is lost or served twice. */
  lemma {:induction false} FirstComeFirstServed(states: seq<State>, events: seq<Event>, i: nat)
    requires Runs(states, events) && i <= |events|
    ensures Waited(states, events, i) == Resumed(states, events, i) + states[i].woken + states[i].queue
  {
    if i > 0 {
      FirstComeFirstServed(states, events, i - 1);
      var was, e := states[i - 1], events[i - 1];
      assert Enabled(was, e) && states[i - 1 + 1] == Next(was, e);
      OrderKept(was, e, Waited(states, events, i - 1), Resumed(states, events, i - 1));
    }
  }

  lemma OrderKept(was: State, e: Event, waited: seq<Caller>, resumed: seq<Caller>)
    requires Enabled(was, e) && waited == resumed + was.woken + was.queue
    ensures var now := Next(was, e);
            waited + (if e.Call? && was.active >= was.limit then [e.caller] else [])
            == resumed + (if e.Resume? && was.woken != [] then [was.woken[0]] else []) + now.woken + now.queue
  {
    match e
    case Call(c) =>
    case Resume =>
      assert was.woken == [was.woken[0]] + was.woken[1..];
    case Finish =>
      if was.queue != [] {
        assert was.queue == [was.queue[0]] + was.queue[1..];
      }
  }

  // ---------- when the limit holds ----------

  /** A call that slips in although the callers running and resolved already fill the limit. */
  predicate Late(s: State, e: Event) {
    e.Call? && s.active < s.limit <= s.active + |s.woken|
  }

  /** Throughout a run, the callers running and resolved are within the limit exactly when no call is late. */
  lemma BoundedIffNoneLate(states: seq<State>, events: seq<Event>)
    requires Runs(states, events)
    ensures (forall i | 0 <= i < |states| :: states[i].active + |states[i].woken| <= states[i].limit) <==>
            (forall i | 0 <= i < |events| :: !Late(states[i], events[i]))
  {
    if forall i | 0 <= i < |events| :: !Late(states[i], events[i]) {
      forall i | 0 <= i < |states| ensures states[i].active + |states[i].woken| <= states[i].limit {
        WithinUnlessLate(states, events, i);
      }
    } else {
      var i :| 0 <= i < |events| && Late(states[i], events[i]);
      assert states[i + 1] == Next(states[i], events[i]);
    }
  }

  /** The limit is exceeded only after a late call. */
  lemma {:induction false} WithinUnlessLate(states: seq<State>, events: seq<Event>, i: nat)
    requires Runs(states, events) && i < |states|
    ensures states[i].active + |states[i].woken| <= states[i].limit || exists j | 0 <= j < i :: Late(states[j], events[j])
  {
    if i > 0 {
      WithinUnlessLate(states, events, i - 1);
      var was, e := states[i - 1], events[i - 1];
      assert Enabled(was, e) && states[i - 1 + 1] == Next(was, e);
      assert was.active + |was.woken| <= was.limit < states[i].active + |states[i].woken| ==> Late(was, e);
    }
  }

  /** Throughout a run, the callers running are within the limit exactly when none resumes while it is reached. */
  lemma ActiveBoundedIff(states: seq<State>, events: seq<Event>)
    requires Runs(states, events)
    ensures (forall i | 0 <= i < |states| :: states[i].active <= states[i].limit) <==>
            (forall i | 0 <= i < |events| :: !(events[i].Resume? && states[i].active >= states[i].limit))
  {
    if forall i | 0 <= i < |events| :: !(events[i].Resume? && states[i].active >= states[i].limit) {
      forall i | 0 <= i < |states| ensures states[i].active <= states[i].limit {
        ActiveWithin(states, events, i);
      }
    } else {
      var i :| 0 <= i < |events| && events[i].Resume? && states[i].active >= states[i].limit;
      assert states[i + 1] == Next(states[i], events[i]);
    }
  }

  lemma {:induction false} ActiveWithin(states: seq<State>, events: seq<Event>, i: nat)
    requires Runs(states, events) && i < |states|
    requires forall j | 0 <= j < |events| :: !(events[j].Resume? && states[j].active >= states[j].limit)
    ensures states[i].active <= states[i].limit
  {
    if i > 0 {
      ActiveWithin(states, events, i - 1);
      assert states[i - 1 + 1] == Next(states[i - 1], events[i - 1]);
    }
  }

  // ---------- how far it can be exceeded ----------

  predicate Leads(s: State, events: seq<Event>, s': State)
    decreases |events|
  {
    if events == [] then s == s'
    else Enabled(s, events[0]) && Leads(Next(s, events[0]), events[1..], s')
  }

  lemma {:induction false} LeadsOn(a: State, first: seq<Event>, b: State, second: seq<Event>, c: State)
    requires Leads(a, first, b) && Leads(b, second, c)
    ensures Leads(a, first + second, c)
    decreases |first|
  {
    if first == [] {
      assert first + second == second;
    } else {
      LeadsOn(Next(a, first[0]), first[1..], b, second, c);
      assert (first + second)[1..] == first[1..] + second;
    }
  }

  lemma LeadsOneMore(a: State, events: seq<Event>, b: State, e: Event)
    requires Leads(a, events, b) && Enabled(b, e)
    ensures Leads(a, events + [e], Next(b, e))
  {
    assert Leads(Next(b, e), [e][1..], Next(b, e));
    LeadsOn(a, events, b, [e], Next(b, e));
  }

  lemma RunOf(limit: nat, events: seq<Event>, last: State) returns (states: seq<State>)
    requires Leads(Initial(limit), events, last)
    ensures Runs(states, events) && states[0] == Initial(limit) && states[|events|] == last
  {
    states := Path(Initial(limit), events, last);
  }

  lemma {:induction false} Path(s: State, events: seq<Event>, last: State) returns (states: seq<State>)
    requires Leads(s, events, last)
    ensures |states| == |events| + 1 && states[0] == s && states[|events|] == last
    ensures forall i | 0 <= i < |events| :: Enabled(states[i], events[i]) && states[i + 1] == Next(states[i], events[i])
    decreases |events|
  {
    if events == [] {
      states := [s];
    } else {
      var rest := Path(Next(s, events[0]), events[1..], last);
      states := [s] + rest;
    }
  }

  lemma {:induction false} Fill(limit: nat, n: nat) returns (events: seq<Event>)
    requires n <= limit
    ensures Leads(Initial(limit), events, State(limit, n, [], []))
  {
    events := [];
    if n > 0 {
      events := Fill(limit, n - 1);
      LeadsOneMore(Initial(limit), events, State(limit, n - 1, [], []), Call(n - 1));
      events := events + [Call(n - 1)];
    }
  }

  lemma {:induction false} Enqueue(limit: nat, active: nat, m: nat) returns (events: seq<Event>, queue: seq<Caller>)
    requires active >= limit
    ensures |queue| == m && Leads(State(limit, active, [], []), events, State(limit, active, queue, []))
    decreases m
  {
    events, queue := [], [];
    if m > 0 {
      events, queue := Enqueue(limit, active, m - 1);
      var c := active + m - 1;
      LeadsOneMore(State(limit, active, [], []), events, State(limit, active, queue, []), Call(c));
      events, queue := events + [Call(c)], queue + [c];
    }
  }

  lemma {:induction false} FinishAll(limit: nat, active: nat, queue: seq<Caller>, woken: seq<Caller>) returns (events: seq<Event>)
    requires active >= |queue|
    ensures Leads(State(limit, active, queue, woken), events, State(limit, active - |queue|, [], woken + queue))
    decreases |queue|
  {
    events := [];
    if queue == [] {
      assert woken + queue == woken;
    } else {
      var rest := FinishAll(limit, active - 1, queue[1..], woken + [queue[0]]);
      assert woken + [queue[0]] + queue[1..] == woken + queue;
      events := [Finish] + rest;
      assert events[1..] == rest;
    }
  }

  lemma {:induction false} ResumeAll(limit: nat, active: nat, woken: seq<Caller>) returns (events: seq<Event>)
    ensures Leads(State(limit, active, [], woken), events, State(limit, active + |woken|, [], []))
    decreases |woken|
  {
    events := [];
    if woken != [] {
      var rest := ResumeAll(limit, active + 1, woken[1..]);
      events := [Resume] + rest;
      assert events[1..] == rest;
    }
  }

  /** A round: enough callers queue up, as many finish, one call slips in, and all resume. */
  lemma OneMore(limit: nat, active: nat) returns (events: seq<Event>)
    requires 0 < limit <= active
    ensures Leads(State(limit, active, [], []), events, State(limit, active + 1, [], []))
  {
    var m := active - limit + 1;
    var calls, queue := Enqueue(limit, active, m);
    var finishes := FinishAll(limit, active, queue, []);
    assert [] + queue == queue;
    var start, late := State(limit, active, [], []), Call(active + m);
    LeadsOn(start, calls, State(limit, active, queue, []), finishes, State(limit, limit - 1, [], queue));
    LeadsOneMore(start, calls + finishes, State(limit, limit - 1, [], queue), late);
    var resumes := ResumeAll(limit, limit, queue);
    LeadsOn(start, calls + finishes + [late], State(limit, limit, [], queue), resumes, State(limit, active + 1, [], []));
    events := calls + finishes + [late] + resumes;
  }

  lemma {:induction false} Reaches(limit: nat, n: nat) returns (events: seq<Event>)
    requires limit > 0
    ensures Leads(Initial(limit), events, State(limit, n, [], []))
    decreases n
  {
    if n <= limit {
      events := Fill(limit, n);
    } else {
      var before := Reaches(limit, n - 1);
      var round := OneMore(limit, n - 1);
      LeadsOn(Initial(limit), before, State(limit, n - 1, [], []), round, State(limit, n, [], []));
      events := before + round;
    }
  }

  /** Whatever the limit, late calls can bring the number running to any number at all. */
  lemma AnyNumberCanRun(limit: nat, n: nat) returns (states: seq<State>, events: seq<Event>)
    requires limit > 0
    ensures Runs(states, events) && states[0].limit == limit
    ensures states[|states| - 1].active == n
  {
    events := Reaches(limit, n);
    states := RunOf(limit, events, State(limit, n, [], []));
  }
}
