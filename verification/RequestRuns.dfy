/**
 Runs of the request protocol: client messages, workers and the main loop interleave
 in any order. What every run keeps, and what it means for each request.
 */
module RequestRuns {
  import opened GlobalStates

  /** `seen` and `rejected` are what the client knows: ids it used, and those no handler took. */
  datatype State = State(loop: Loop, events: seq<Event>, seen: set<Id>, rejected: set<Id>)

  const START := State(INITIAL, [], {}, {})

  datatype Step =
    | Receive(id: Id, route: Route)
    | Cancel(id: Id)
    | Finish(job: nat, outcome: Outcome)
    | Decompiled(job: nat)
    | Take(decompilerReady: bool)
    | RunPending

  /**
   The client does not use an id twice; a worker gives up as cancelled only when it
   has seen its own token flipped; a job that runs is one that was handed over.
   */
  predicate Enabled(s: State, step: Step) {
    match step
    case Receive(id, _) => id !in s.seen
    case Cancel(_) => true
    case Finish(j, outcome) =>
      && j < |s.loop.pool| && s.loop.pool[j].Run?
      && (outcome.ClientCancelled? ==> s.loop.pool[j].token in s.loop.flagged)
    case Decompiled(j) => j < |s.loop.pool| && s.loop.pool[j].Decompile?
    case Take(_) => s.events != []
    case RunPending => true
  }

  function Without<T>(xs: seq<T>, k: nat): seq<T>
    requires k < |xs|
  {
    xs[..k] + xs[k + 1..]
  }

  function Apply(s: State, step: Step): State
    requires Enabled(s, step)
  {
    match step
    case Receive(id, route) =>
      State(Received(s.loop, id, route), s.events, s.seen + {id},
            if route.Unknown? then s.rejected + {id} else s.rejected)
    case Cancel(id) => s.(loop := Cancelled(s.loop, id))
    case Finish(j, outcome) =>
      s.(loop := s.loop.(pool := Without(s.loop.pool, j)),
         events := s.events + [Report(s.loop.pool[j].cont, outcome)])
    case Decompiled(j) =>
      s.(loop := s.loop.(pool := Without(s.loop.pool, j)),
         events := s.events + [LibraryDecompiled(s.loop.pool[j].cont)])
    case Take(ready) => s.(loop := Handled(s.loop, s.events[0], ready), events := s.events[1..])
    case RunPending => s.(loop := PendingRun(s.loop))
  }

  /** The steps can be taken one after the other from the start. */
  predicate Valid(steps: seq<Step>)
    decreases |steps|, 0
  {
    steps == [] || (Valid(steps[..|steps| - 1]) && Enabled(After(steps[..|steps| - 1]), steps[|steps| - 1]))
  }

  function After(steps: seq<Step>): State
    requires Valid(steps)
    decreases |steps|, 1
  {
    if steps == [] then START else Apply(After(steps[..|steps| - 1]), steps[|steps| - 1])
  }

  // ----- who is at work for which request

  function JobIds(pool: seq<Job>): seq<Id> {
    seq(|pool|, k requires 0 <= k < |pool| => pool[k].cont.id)
  }

  function EventIds(events: seq<Event>): seq<Id> {
    seq(|events|, k requires 0 <= k < |events| => events[k].Request())
  }

  function ContIds(conts: seq<Cont>): seq<Id> {
    seq(|conts|, k requires 0 <= k < |conts| => conts[k].id)
  }

  function ResponseIds(sent: seq<Response>): seq<Id> {
    seq(|sent|, k requires 0 <= k < |sent| => sent[k].id)
  }

  /** One occurrence of an id for every job, event and closure that carries it on. */
  ghost function Carriers(s: State): multiset<Id> {
    multiset(JobIds(s.loop.pool)) + multiset(EventIds(s.events)) + multiset(ContIds(s.loop.pending))
  }

  /** One occurrence of an id for every response sent to it. */
  ghost function Answers(s: State): multiset<Id> {
    multiset(ResponseIds(s.loop.sent))
  }

  // ----- what every run keeps

  /** At most one carrier, and only for requests some worker took. */
  ghost predicate OneCarrier(c: multiset<Id>, seen: set<Id>, rejected: set<Id>) {
    forall id | id in c :: c[id] == 1 && id in seen && id !in rejected
  }

  /** A request without an answer is carried on, and a token belongs to a request that is. */
  ghost predicate NoneLost(c: multiset<Id>, s: State) {
    && s.loop.incoming <= s.seen && s.rejected <= s.seen
    && (forall id | id in s.loop.incoming && id !in s.rejected :: id in c)
    && (forall id | id in s.loop.tokens :: id in c)
  }

  /** An abort speaks for a request that has been answered. */
  ghost predicate AbortsAnswered(events: seq<Event>, seen: set<Id>, incoming: set<Id>) {
    forall k | 0 <= k < |events| && events[k].Aborted? :: events[k].id in seen && events[k].id !in incoming
  }

  /** Off the queue is answered once; a rejection is an answer that leaves the id on the queue. */
  ghost function Owed(s: State, id: Id): nat {
    if id !in s.seen then 0
    else (if id in s.rejected then 1 else 0) + (if id in s.loop.incoming then 0 else 1)
  }

  ghost predicate Accounted(a: multiset<Id>, s: State) {
    forall id :: a[id] == Owed(s, id)
  }

  /**
   A first run holds the registered token, flipped exactly when its request is off
   the queue; a rerun holds one that nothing can flip.
   */
  ghost predicate Holds(l: Loop, job: Job) {
    job.Run? ==>
      && job.token < l.minted
      && (!job.retried ==> job.cont.id in l.tokens && l.tokens[job.cont.id] == job.token)
      && (!job.retried ==> (job.token in l.flagged <==> job.cont.id !in l.incoming))
      && (job.retried ==> job.token !in l.flagged && forall id | id in l.tokens :: l.tokens[id] != job.token)
  }

  ghost predicate TokensKept(l: Loop) {
    && (forall id | id in l.tokens :: l.tokens[id] < l.minted)
    && (forall id, id' | id in l.tokens && id' in l.tokens && l.tokens[id] == l.tokens[id'] :: id == id')
    && (forall t | t in l.flagged :: t < l.minted)
    && (forall k | 0 <= k < |l.pool| :: Holds(l, l.pool[k]))
  }

  ghost predicate InvWith(s: State, c: multiset<Id>, a: multiset<Id>) {
    && OneCarrier(c, s.seen, s.rejected)
    && NoneLost(c, s)
    && AbortsAnswered(s.events, s.seen, s.loop.incoming)
    && Accounted(a, s)
    && TokensKept(s.loop)
  }

  ghost predicate Inv(s: State) {
    InvWith(s, Carriers(s), Answers(s))
  }

  // ----- how the two multisets move

  lemma JobLeaves(pool: seq<Job>, j: nat)
    requires j < |pool|
    ensures multiset(JobIds(pool)) == multiset(JobIds(Without(pool, j))) + multiset{pool[j].cont.id}
  {
    var ids := JobIds(pool);
    assert JobIds(Without(pool, j)) == ids[..j] + ids[j + 1..];
    assert ids == ids[..j] + [ids[j]] + ids[j + 1..];
  }

  lemma JobEnters(pool: seq<Job>, job: Job)
    ensures multiset(JobIds(pool + [job])) == multiset(JobIds(pool)) + multiset{job.cont.id}
  {
    assert JobIds(pool + [job]) == JobIds(pool) + [job.cont.id];
  }

  lemma EventEnters(events: seq<Event>, event: Event)
    ensures multiset(EventIds(events + [event])) == multiset(EventIds(events)) + multiset{event.Request()}
  {
    assert EventIds(events + [event]) == EventIds(events) + [event.Request()];
  }

  lemma EventLeaves(events: seq<Event>)
    requires events != []
    ensures multiset(EventIds(events)) == multiset(EventIds(events[1..])) + multiset{events[0].Request()}
  {
    assert EventIds(events) == [events[0].Request()] + EventIds(events[1..]);
  }

  lemma ClosureEnters(pending: seq<Cont>, run: Cont)
    ensures multiset(ContIds(pending + [run])) == multiset(ContIds(pending)) + multiset{run.id}
  {
    assert ContIds(pending + [run]) == ContIds(pending) + [run.id];
  }

  lemma ResponseEnters(sent: seq<Response>, response: Response)
    ensures multiset(ResponseIds(sent + [response])) == multiset(ResponseIds(sent)) + multiset{response.id}
  {
    assert ResponseIds(sent + [response]) == ResponseIds(sent) + [response.id];
  }

  lemma ClosuresStart(s: State)
    ensures Carriers(s.(loop := PendingRun(s.loop))) == Carriers(s)
  {
    var l := s.loop;
    assert JobIds(PendingRun(l).pool) == JobIds(l.pool) + ContIds(l.pending);
  }

  /** Who has no carrier has no job; nor has the request of a waiting event. */
  lemma NoJobFor(s: State, id: Id)
    requires id !in Carriers(s) || (s.events != [] && id == s.events[0].Request() && Carriers(s)[id] == 1)
    ensures forall k | 0 <= k < |s.loop.pool| :: s.loop.pool[k].cont.id != id
  {
    forall k | 0 <= k < |s.loop.pool| ensures s.loop.pool[k].cont.id != id {
      assert JobIds(s.loop.pool)[k] == s.loop.pool[k].cont.id;
      if s.events != [] {
        EventLeaves(s.events);
      }
    }
  }

  // ----- tokens, operation by operation

  lemma RespondKeepsTokens(l: Loop, id: Id, reply: Reply)
    requires TokensKept(l) && forall k | 0 <= k < |l.pool| :: l.pool[k].cont.id != id
    ensures TokensKept(Responded(l, id, reply))
  {
    var l' := Responded(l, id, reply);
    forall k | 0 <= k < |l'.pool| ensures Holds(l', l'.pool[k]) {
      assert Holds(l, l.pool[k]);
    }
  }

  lemma CancelKeepsTokens(l: Loop, id: Id)
    requires TokensKept(l)
    ensures TokensKept(Cancelled(l, id))
  {
    var l' := Cancelled(l, id);
    forall k | 0 <= k < |l'.pool| ensures Holds(l', l'.pool[k]) {
      assert Holds(l, l.pool[k]);
    }
  }

  lemma StartKeepsTokens(l: Loop, id: Id)
    requires TokensKept(l) && id !in l.tokens && id in l.incoming
    ensures TokensKept(Started(l, id))
  {
    var l' := Started(l, id);
    forall k | 0 <= k < |l'.pool| ensures Holds(l', l'.pool[k]) {
      if k < |l.pool| {
        assert Holds(l, l.pool[k]);
      }
    }
  }

  lemma RerunKeepsTokens(l: Loop)
    requires TokensKept(l)
    ensures TokensKept(PendingRun(l))
  {
    var l' := PendingRun(l);
    forall k | 0 <= k < |l'.pool| ensures Holds(l', l'.pool[k]) {
      if k < |l.pool| {
        assert Holds(l, l.pool[k]);
      }
    }
  }

  lemma ForgetKeepsTokens(l: Loop, id: Id)
    requires TokensKept(l) && forall k | 0 <= k < |l.pool| :: l.pool[k].cont.id != id
    ensures TokensKept(Forgotten(l, id))
  {
    var l' := Forgotten(l, id);
    forall k | 0 <= k < |l'.pool| ensures Holds(l', l'.pool[k]) {
      assert Holds(l, l.pool[k]);
    }
  }

  lemma RegisterKeepsTokens(l: Loop, id: Id)
    requires TokensKept(l) && forall k | 0 <= k < |l.pool| :: l.pool[k].cont.id != id
    ensures TokensKept(l.(incoming := l.incoming + {id}))
  {
    var l' := l.(incoming := l.incoming + {id});
    forall k | 0 <= k < |l'.pool| ensures Holds(l', l'.pool[k]) {
      assert Holds(l, l.pool[k]);
    }
  }

  lemma LeaveKeepsTokens(l: Loop, j: nat)
    requires TokensKept(l) && j < |l.pool|
    ensures TokensKept(l.(pool := Without(l.pool, j)))
  {
    var l' := l.(pool := Without(l.pool, j));
    forall k | 0 <= k < |l'.pool| ensures Holds(l', l'.pool[k]) {
      assert Holds(l, l.pool[if k < j then k else k + 1]);
    }
  }

  lemma DecompileKeepsTokens(l: Loop, run: Cont)
    requires TokensKept(l)
    ensures TokensKept(l.(pool := l.pool + [Decompile(run)]))
  {
    var l' := l.(pool := l.pool + [Decompile(run)]);
    forall k | 0 <= k < |l'.pool| ensures Holds(l', l'.pool[k]) {
      if k < |l.pool| {
        assert Holds(l, l.pool[k]);
      }
    }
  }

  // ----- each step keeps the invariant, given how it moves the multisets

  lemma RespondKeeps(s: State, id: Id, reply: Reply, c: multiset<Id>, a: multiset<Id>)
    requires InvWith(s, c, a)
    requires forall k | 0 <= k < |s.loop.pool| :: s.loop.pool[k].cont.id != id
    ensures InvWith(s.(loop := Responded(s.loop, id, reply)), c, if id in s.loop.incoming then a + multiset{id} else a)
  {
    RespondKeepsTokens(s.loop, id, reply);
  }

  lemma CancelKeeps(s: State, id: Id, c: multiset<Id>, a: multiset<Id>)
    requires InvWith(s, c, a)
    ensures InvWith(s.(loop := Cancelled(s.loop, id)), c, if id in s.loop.incoming then a + multiset{id} else a)
  {
    CancelKeepsTokens(s.loop, id);
  }

  lemma AnsweredAtOnceKeeps(s: State, id: Id, reply: Reply, c: multiset<Id>, a: multiset<Id>)
    requires InvWith(s, c, a) && id !in s.seen
    requires forall k | 0 <= k < |s.loop.pool| :: s.loop.pool[k].cont.id != id
    ensures InvWith(
      s.(loop := Responded(s.loop.(incoming := s.loop.incoming + {id}), id, reply), seen := s.seen + {id}),
      c, a + multiset{id})
  {
    RegisterKeepsTokens(s.loop, id);
    RespondKeepsTokens(s.loop.(incoming := s.loop.incoming + {id}), id, reply);
  }

  lemma RejectKeeps(s: State, id: Id, c: multiset<Id>, a: multiset<Id>)
    requires InvWith(s, c, a) && id !in s.seen
    requires forall k | 0 <= k < |s.loop.pool| :: s.loop.pool[k].cont.id != id
    ensures InvWith(Apply(s, Receive(id, Unknown)), c, a + multiset{id})
  {
    RegisterKeepsTokens(s.loop, id);
    var registered := s.loop.(incoming := s.loop.incoming + {id});
    var l := Apply(s, Receive(id, Unknown)).loop;
    assert TokensKept(l) by {
      forall k | 0 <= k < |l.pool| ensures Holds(l, l.pool[k]) {
        assert Holds(registered, registered.pool[k]);
      }
    }
  }

  lemma StartKeeps(s: State, id: Id, c: multiset<Id>, a: multiset<Id>)
    requires InvWith(s, c, a) && id !in s.seen
    requires forall k | 0 <= k < |s.loop.pool| :: s.loop.pool[k].cont.id != id
    ensures InvWith(Apply(s, Receive(id, Async)), c + multiset{id}, a)
  {
    RegisterKeepsTokens(s.loop, id);
    StartKeepsTokens(s.loop.(incoming := s.loop.incoming + {id}), id);
  }

  lemma FinishKeeps(s: State, j: nat, event: Event, c: multiset<Id>, a: multiset<Id>)
    requires InvWith(s, c, a) && j < |s.loop.pool|
    requires event.Aborted? ==> event.id in s.seen && event.id !in s.loop.incoming
    ensures InvWith(s.(loop := s.loop.(pool := Without(s.loop.pool, j)), events := s.events + [event]), c, a)
  {
    LeaveKeepsTokens(s.loop, j);
  }

  lemma ForgetKeeps(s: State, id: Id, c: multiset<Id>, a: multiset<Id>)
    requires InvWith(s, c, a)
    requires forall k | 0 <= k < |s.loop.pool| :: s.loop.pool[k].cont.id != id
    ensures InvWith(s.(loop := Forgotten(s.loop, id)), c, a)
  {
    ForgetKeepsTokens(s.loop, id);
  }

  /** The event of an answered request can go, once the token is gone. */
  lemma DropKeeps(s: State, id: Id, c: multiset<Id>, a: multiset<Id>)
    requires InvWith(s, c + multiset{id}, a) && s.events != []
    requires id !in s.loop.incoming && id !in s.loop.tokens
    ensures InvWith(s.(events := s.events[1..]), c, a)
  {
    assert (c + multiset{id})[id] == c[id] + 1;
  }

  lemma QueueKeeps(s: State, run: Cont, c: multiset<Id>, a: multiset<Id>)
    requires InvWith(s, c, a) && s.events != []
    ensures InvWith(s.(loop := s.loop.(pending := s.loop.pending + [run]), events := s.events[1..]), c, a)
  {
    var l := s.loop.(pending := s.loop.pending + [run]);
    assert TokensKept(l) by {
      forall k | 0 <= k < |l.pool| ensures Holds(l, l.pool[k]) {
        assert Holds(s.loop, s.loop.pool[k]);
      }
    }
  }

  lemma DecompileKeeps(s: State, run: Cont, c: multiset<Id>, a: multiset<Id>)
    requires InvWith(s, c, a) && s.events != []
    ensures InvWith(s.(loop := s.loop.(pool := s.loop.pool + [Decompile(run)]), events := s.events[1..]), c, a)
  {
    DecompileKeepsTokens(s.loop, run);
  }

  // ----- the steps themselves

  lemma ReceiveStep(s: State, id: Id, route: Route)
    requires Inv(s) && id !in s.seen
    ensures Inv(Apply(s, Receive(id, route)))
  {
    var s' := Apply(s, Receive(id, route));
    var c, a := Carriers(s), Answers(s);
    NoJobFor(s, id);
    match route
    case Sync(reply) =>
      AnsweredAtOnceKeeps(s, id, reply, c, a);
      ResponseEnters(s.loop.sent, Response(id, reply));
    case BadParams =>
      AnsweredAtOnceKeeps(s, id, InvalidParams, c, a);
      ResponseEnters(s.loop.sent, Response(id, InvalidParams));
    case Unknown =>
      RejectKeeps(s, id, c, a);
      ResponseEnters(s.loop.sent, Response(id, MethodNotFound));
    case Async =>
      StartKeeps(s, id, c, a);
      JobEnters(s.loop.pool, Run(Cont(id, true), s.loop.minted, false));
      assert Carriers(s') == c + multiset{id};
  }

  lemma CancelStep(s: State, id: Id)
    requires Inv(s)
    ensures Inv(s.(loop := Cancelled(s.loop, id)))
  {
    CancelKeeps(s, id, Carriers(s), Answers(s));
    ResponseEnters(s.loop.sent, Response(id, RequestCanceled));
  }

  lemma FinishStep(s: State, j: nat, event: Event)
    requires Inv(s) && j < |s.loop.pool| && event.Request() == s.loop.pool[j].cont.id
    requires event.Aborted? ==> event.id in s.seen && event.id !in s.loop.incoming
    ensures Inv(s.(loop := s.loop.(pool := Without(s.loop.pool, j)), events := s.events + [event]))
  {
    var s' := s.(loop := s.loop.(pool := Without(s.loop.pool, j)), events := s.events + [event]);
    FinishKeeps(s, j, event, Carriers(s), Answers(s));
    JobLeaves(s.loop.pool, j);
    EventEnters(s.events, event);
    assert Carriers(s') == Carriers(s);
  }

  lemma EventCounts(s: State)
    requires Inv(s) && s.events != []
    ensures Carriers(s)[s.events[0].Request()] == 1
  {
    EventLeaves(s.events);
    assert s.events[0].Request() in Carriers(s);
  }

  /** The token of a waiting event's request can go: nobody holds it any more. */
  lemma ForgetStep(s: State, id: Id)
    requires Inv(s) && s.events != [] && s.events[0].Request() == id
    ensures Inv(s.(loop := Forgotten(s.loop, id)))
  {
    EventCounts(s);
    NoJobFor(s, id);
    ForgetKeeps(s, id, Carriers(s), Answers(s));
  }

  lemma RespondStep(s: State, id: Id, reply: Reply)
    requires Inv(s) && s.events != [] && s.events[0].Request() == id
    ensures Inv(s.(loop := Responded(s.loop, id, reply)))
  {
    EventCounts(s);
    NoJobFor(s, id);
    RespondKeeps(s, id, reply, Carriers(s), Answers(s));
    ResponseEnters(s.loop.sent, Response(id, reply));
  }

  lemma DropStep(s: State, id: Id)
    requires Inv(s) && s.events != [] && s.events[0].Request() == id
    requires id !in s.loop.incoming && id !in s.loop.tokens
    ensures Inv(s.(events := s.events[1..]))
  {
    var s' := s.(events := s.events[1..]);
    EventLeaves(s.events);
    assert Carriers(s) == Carriers(s') + multiset{id};
    DropKeeps(s, id, Carriers(s'), Answers(s));
  }

  lemma QueueStep(s: State, run: Cont)
    requires Inv(s) && s.events != [] && s.events[0].Request() == run.id
    ensures Inv(s.(loop := s.loop.(pending := s.loop.pending + [run]), events := s.events[1..]))
  {
    var s' := s.(loop := s.loop.(pending := s.loop.pending + [run]), events := s.events[1..]);
    QueueKeeps(s, run, Carriers(s), Answers(s));
    EventLeaves(s.events);
    ClosureEnters(s.loop.pending, run);
    assert Carriers(s') == Carriers(s);
  }

  lemma DecompileStep(s: State, run: Cont)
    requires Inv(s) && s.events != [] && s.events[0].Request() == run.id
    ensures Inv(s.(loop := s.loop.(pool := s.loop.pool + [Decompile(run)]), events := s.events[1..]))
  {
    var s' := s.(loop := s.loop.(pool := s.loop.pool + [Decompile(run)]), events := s.events[1..]);
    DecompileKeeps(s, run, Carriers(s), Answers(s));
    EventLeaves(s.events);
    JobEnters(s.loop.pool, Decompile(run));
    assert Carriers(s') == Carriers(s);
  }

  lemma CompletedStep(s: State, id: Id, reply: Reply)
    requires Inv(s) && s.events != [] && s.events[0].Request() == id
    ensures Inv(s.(loop := Responded(Forgotten(s.loop, id), id, reply), events := s.events[1..]))
  {
    ForgetStep(s, id);
    var forgotten := s.(loop := Forgotten(s.loop, id));
    RespondStep(forgotten, id, reply);
    DropStep(forgotten.(loop := Responded(forgotten.loop, id, reply)), id);
  }

  lemma AbortedStep(s: State, id: Id)
    requires Inv(s) && s.events != [] && s.events[0] == Aborted(id)
    ensures Inv(s.(loop := Forgotten(s.loop, id), events := s.events[1..]))
  {
    ForgetStep(s, id);
    DropStep(s.(loop := Forgotten(s.loop, id)), id);
  }

  lemma RetryStep(s: State, run: Cont)
    requires Inv(s) && s.events != [] && s.events[0].Request() == run.id
    ensures var l := Forgotten(s.loop, run.id);
      Inv(s.(loop := l.(pending := l.pending + [run]), events := s.events[1..]))
  {
    ForgetStep(s, run.id);
    QueueStep(s.(loop := Forgotten(s.loop, run.id)), run);
  }

  lemma LoadStep(s: State, decompiles: bool, run: Cont, ready: bool)
    requires Inv(s) && s.events != [] && s.events[0] == LoadLibraryFiles(decompiles, run)
    ensures Inv(s.(loop := Handled(s.loop, LoadLibraryFiles(decompiles, run), ready), events := s.events[1..]))
  {
    if decompiles && ready {
      DecompileStep(s, run);
    } else {
      QueueStep(s, run);
    }
  }

  /** The state after an event, arm by arm, is the one its lemma speaks of. */
  lemma TakeStep(s: State, ready: bool)
    requires Inv(s) && s.events != []
    ensures Inv(Apply(s, Take(ready)))
  {
    var event := s.events[0];
    var rest := s.events[1..];
    var s' := Apply(s, Take(ready));
    if event.Completed? {
      CompletedStep(s, event.id, event.reply);
      assert s' == s.(loop := Responded(Forgotten(s.loop, event.id), event.id, event.reply), events := rest);
    } else if event.Aborted? {
      AbortedStep(s, event.id);
      assert s' == s.(loop := Forgotten(s.loop, event.id), events := rest);
    } else if event.Retry? {
      RetryStep(s, event.run);
    } else if event.LibraryDecompiled? {
      QueueStep(s, event.run);
    } else {
      LoadStep(s, event.decompiles, event.run, ready);
    }
  }

  lemma RunPendingStep(s: State)
    requires Inv(s)
    ensures Inv(Apply(s, RunPending))
  {
    ClosuresStart(s);
    RerunKeepsTokens(s.loop);
  }

  lemma StepKeeps(s: State, step: Step)
    requires Inv(s) && Enabled(s, step)
    ensures Inv(Apply(s, step))
  {
    match step
    case Receive(id, route) => ReceiveStep(s, id, route);
    case Cancel(id) => CancelStep(s, id);
    case Finish(j, outcome) =>
      assert Holds(s.loop, s.loop.pool[j]);
      assert JobIds(s.loop.pool)[j] in Carriers(s);
      FinishStep(s, j, Report(s.loop.pool[j].cont, outcome));
    case Decompiled(j) => FinishStep(s, j, LibraryDecompiled(s.loop.pool[j].cont));
    case Take(ready) => TakeStep(s, ready);
    case RunPending => RunPendingStep(s);
  }

  lemma {:induction false} EveryRunKeeps(steps: seq<Step>)
    requires Valid(steps)
    ensures Inv(After(steps))
  {
    if steps == [] {
      assert Carriers(START) == multiset{} && Answers(START) == multiset{};
    } else {
      EveryRunKeeps(steps[..|steps| - 1]);
      StepKeeps(After(steps[..|steps| - 1]), steps[|steps| - 1]);
    }
  }

  // ----- what that means for a request

  /** A request that some handler took is answered at most once: exactly once when it leaves the queue. */
  lemma OneResponse(steps: seq<Step>, id: Id)
    requires Valid(steps) && id !in After(steps).rejected
    ensures var s := After(steps);
      Answers(s)[id] == if id in s.seen && id !in s.loop.incoming then 1 else 0
  {
    EveryRunKeeps(steps);
  }

  /** A request still waiting is carried by exactly one job, event or closure, and no abort is on its way. */
  lemma WaitingIsCarried(steps: seq<Step>, id: Id)
    requires Valid(steps)
    requires id in After(steps).loop.incoming && id !in After(steps).rejected
    ensures Carriers(After(steps))[id] == 1 && Aborted(id) !in After(steps).events
  {
    EveryRunKeeps(steps);
  }

  /** An abort reaches the main loop only after the client has had its one answer. */
  lemma AbortComesAfterAnswer(steps: seq<Step>, id: Id)
    requires Valid(steps) && Aborted(id) in After(steps).events
    ensures Answers(After(steps))[id] == 1
  {
    EveryRunKeeps(steps);
    var s := After(steps);
    var k :| 0 <= k < |s.events| && s.events[k] == Aborted(id);
    assert EventIds(s.events)[k] in Carriers(s);
  }

  /** Once nothing runs and nothing waits, every request taken has had its answer. */
  lemma QuietMeansAnswered(steps: seq<Step>, id: Id)
    requires Valid(steps)
    requires var s := After(steps); s.loop.pool == [] && s.events == [] && s.loop.pending == []
    requires id in After(steps).seen && id !in After(steps).rejected
    ensures Answers(After(steps))[id] == 1 && After(steps).loop.tokens == map[]
  {
    EveryRunKeeps(steps);
    assert Carriers(After(steps)) == multiset{};
  }

  /**
   The reply to an unknown method leaves its id on the queue, so a later cancel
   sends a second response; nothing else ever does.
   */
  lemma TwoResponsesIff(steps: seq<Step>, id: Id)
    requires Valid(steps)
    ensures Answers(After(steps))[id] <= 2
    ensures Answers(After(steps))[id] == 2 <==> CancelsRejected(steps, id)
  {
    EveryRunKeeps(steps);
    RejectedIff(steps, id);
  }

  /** The client cancels the id after its request was rejected. */
  ghost predicate CancelsRejected(steps: seq<Step>, id: Id) {
    exists j :: 0 <= j < |steps| && steps[j] == Cancel(id) && Receive(id, Unknown) in steps[..j]
  }

  lemma CancelsRejectedStep(steps: seq<Step>, id: Id)
    requires steps != []
    ensures var n := |steps| - 1;
      CancelsRejected(steps, id) <==>
        CancelsRejected(steps[..n], id) || (steps[n] == Cancel(id) && Receive(id, Unknown) in steps[..n])
  {
    var n := |steps| - 1;
    forall j | 0 <= j < n ensures steps[..n][..j] == steps[..j] {}
    if CancelsRejected(steps[..n], id) {
      var j :| 0 <= j < n && steps[..n][j] == Cancel(id) && Receive(id, Unknown) in steps[..n][..j];
      assert steps[j] == Cancel(id) && Receive(id, Unknown) in steps[..j];
    }
    if CancelsRejected(steps, id) {
      var j :| 0 <= j < |steps| && steps[j] == Cancel(id) && Receive(id, Unknown) in steps[..j];
      assert j < n ==> steps[..n][j] == Cancel(id) && Receive(id, Unknown) in steps[..n][..j];
    }
  }

  /** Only a cancel takes a rejected id off the queue: no event speaks for it. */
  lemma RejectedStep(s: State, step: Step, id: Id)
    requires Inv(s) && Enabled(s, step)
    ensures var s' := Apply(s, step);
      && (id in s'.rejected <==> id in s.rejected || step == Receive(id, Unknown))
      && (id in s'.rejected && id !in s'.loop.incoming <==>
            id in s.rejected && (id !in s.loop.incoming || step == Cancel(id)))
  {
    if step.Take? {
      TakeLeavesRejected(s, step.decompilerReady, id);
    }
  }

  /** No event speaks for a rejected request. */
  lemma TakeLeavesRejected(s: State, ready: bool, id: Id)
    requires Inv(s) && s.events != []
    ensures id in s.rejected ==> (id in Apply(s, Take(ready)).loop.incoming <==> id in s.loop.incoming)
  {
    EventCounts(s);
  }

  lemma RejectedLastStep(steps: seq<Step>, id: Id)
    requires Valid(steps) && steps != []
    ensures var n := |steps| - 1; var s, s' := After(steps[..n]), After(steps);
      && (id in s'.rejected <==> id in s.rejected || steps[n] == Receive(id, Unknown))
      && (id in s'.rejected && id !in s'.loop.incoming <==>
            id in s.rejected && (id !in s.loop.incoming || steps[n] == Cancel(id)))
  {
    EveryRunKeeps(steps[..|steps| - 1]);
    RejectedStep(After(steps[..|steps| - 1]), steps[|steps| - 1], id);
  }

  lemma {:induction false} RejectedIff(steps: seq<Step>, id: Id)
    requires Valid(steps)
    ensures id in After(steps).rejected <==> Receive(id, Unknown) in steps
    ensures id in After(steps).rejected && id !in After(steps).loop.incoming <==> CancelsRejected(steps, id)
  {
    if steps == [] {
      assert After(steps) == START;
    } else {
      var n := |steps| - 1;
      RejectedIff(steps[..n], id);
      CancelsRejectedStep(steps, id);
      RejectedLastStep(steps, id);
      assert steps == steps[..n] + [steps[n]];
    }
  }

  // ----- who a cancel reaches

  /** A running job may end as aborted exactly when it is the first run of its request and that was cancelled. */
  lemma AbortIff(steps: seq<Step>, k: nat)
    requires Valid(steps) && k < |After(steps).loop.pool| && After(steps).loop.pool[k].Run?
    ensures var s := After(steps); var job := s.loop.pool[k];
      Enabled(s, Finish(k, ClientCancelled)) <==> !job.retried && job.cont.id !in s.loop.incoming
  {
    EveryRunKeeps(steps);
    assert Holds(After(steps).loop, After(steps).loop.pool[k]);
  }

  /** Cancelling reaches the job at work for a request exactly when that is its first run. */
  lemma CancelReachesFirstRunOnly(steps: seq<Step>, k: nat)
    requires Valid(steps) && k < |After(steps).loop.pool| && After(steps).loop.pool[k].Run?
    ensures var s := After(steps); var job := s.loop.pool[k];
      job.token in Cancelled(s.loop, job.cont.id).flagged <==> !job.retried
  {
    EveryRunKeeps(steps);
    assert Holds(After(steps).loop, After(steps).loop.pool[k]);
  }

  /** So a request deferred for library files does not observe a cancel once it runs again. */
  lemma DeferredRunMissesCancel(id: Id)
    ensures var steps := [Receive(id, Async), Finish(0, Defer(false)), Take(true), RunPending, Cancel(id)];
      && Valid(steps)
      && var s := After(steps);
         && s.loop.pool == [Run(Cont(id, false), 1, true)]
         && s.loop.tokens == map[id := 0] && s.loop.flagged == {0}
         && s.loop.sent == [Response(id, RequestCanceled)]
         && !Enabled(s, Finish(0, ClientCancelled))
  {
    var s0 := [Receive(id, Async)];
    var s1 := s0 + [Finish(0, Defer(false))];
    var s2 := s1 + [Take(true)];
    var s3 := s2 + [RunPending];
    var s4 := s3 + [Cancel(id)];
    OneMore([], Receive(id, Async));
    OneMore(s0, Finish(0, Defer(false)));
    OneMore(s1, Take(true));
    OneMore(s2, RunPending);
    OneMore(s3, Cancel(id));
    assert s4 == [Receive(id, Async), Finish(0, Defer(false)), Take(true), RunPending, Cancel(id)];
  }

  /** The failing input of `TwoResponsesIff`: an unknown method, cancelled. */
  lemma RejectedThenCancelled(id: Id)
    ensures var steps := [Receive(id, Unknown), Cancel(id)];
      Valid(steps) && After(steps).loop.sent == [Response(id, MethodNotFound), Response(id, RequestCanceled)]
  {
    OneMore([], Receive(id, Unknown));
    OneMore([Receive(id, Unknown)], Cancel(id));
    assert [Receive(id, Unknown)] + [Cancel(id)] == [Receive(id, Unknown), Cancel(id)];
  }

  lemma OneMore(steps: seq<Step>, step: Step)
    requires Valid(steps) && Enabled(After(steps), step)
    ensures Valid(steps + [step]) && After(steps + [step]) == Apply(After(steps), step)
  {
    var all := steps + [step];
    assert all[..|all| - 1] == steps && all[|all| - 1] == step;
  }
}
