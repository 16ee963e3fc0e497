/**
 Which reply a response carries, told from the log of a run: how the request was
 routed, how its worker runs ended, and whether a cancel came first.
 */
module RequestReplies {
  import opened Wrappers
  import opened GlobalStates
  import opened RequestRuns

  /** The replies sent to an id, in order. */
  function RepliesTo(sent: seq<Response>, id: Id): seq<Reply> {
    if sent == [] then []
    else
      var n := |sent| - 1;
      RepliesTo(sent[..n], id) + (if sent[n].id == id then [sent[n].reply] else [])
  }

  /** What the log tells of one request. */
  datatype Story = Story(
    route: Option<Route>,
    deferred: bool,            // a worker run asked for library files
    verdict: Option<Reply>,    // what the last worker run has to say, if it ended the request
    cancelled: bool)           // a cancel found the request waiting

  const UNTOLD := Story(None, false, None, false)

  /** A run that answers, fails or panics ends its request, and so does a second call for library files. */
  function Verdict(outcome: Outcome, deferred: bool): Option<Reply> {
    match outcome
    case Answer(value) => Some(Result(value))
    case Failure => Some(InternalError)
    case Panicked => Some(Result("content modified"))
    case Defer(_) => if deferred then Some(Result("null")) else None
    case PendingWrite => None
    case ClientCancelled => None
  }

  function Tell(story: Story, s: State, step: Step, id: Id): Story
    requires Enabled(s, step)
  {
    match step
    case Receive(id', route) => if id' == id then story.(route := Some(route)) else story
    case Cancel(id') => if id' == id && id in s.loop.incoming then story.(cancelled := true) else story
    case Finish(j, outcome) =>
      if s.loop.pool[j].cont.id != id then story
      else story.(verdict := Verdict(outcome, story.deferred), deferred := story.deferred || outcome.Defer?)
    case _ => story
  }

  function Told(steps: seq<Step>, id: Id): Story
    requires Valid(steps)
  {
    if steps == [] then UNTOLD
    else
      var n := |steps| - 1;
      Tell(Told(steps[..n], id), After(steps[..n]), steps[n], id)
  }

  /** The replies the story calls for, once the request is off the queue or still on it. */
  function Due(story: Story, waiting: bool): seq<Reply> {
    match story.route
    case None => []
    case Some(Sync(reply)) => [reply]
    case Some(BadParams) => [InvalidParams]
    case Some(Unknown) => [MethodNotFound] + (if story.cancelled then [RequestCanceled] else [])
    case Some(Async) =>
      if waiting then []
      else if story.cancelled then [RequestCanceled]
      else if story.verdict.Some? then [story.verdict.value]
      else []
  }

  // ----- what links the story to the state

  /** Closures of the request may defer exactly while no run of it has. */
  ghost predicate Matches(run: Cont, story: Story, id: Id) {
    run.id == id ==> run.allowDefer == !story.deferred
  }

  ghost predicate EventMatches(event: Event, story: Story, id: Id) {
    match event
    case Completed(id', reply) => id' == id ==> story.verdict == Some(reply)
    case Aborted(_) => true
    case Retry(run) => Matches(run, story, id)
    case LoadLibraryFiles(_, run) => Matches(run, story, id)
    case LibraryDecompiled(run) => Matches(run, story, id)
  }

  ghost predicate ClosuresMatch(story: Story, pool: seq<Job>, events: seq<Event>, pending: seq<Cont>, id: Id) {
    && (forall k | 0 <= k < |pool| :: Matches(pool[k].cont, story, id))
    && (forall k | 0 <= k < |events| :: EventMatches(events[k], story, id))
    && (forall k | 0 <= k < |pending| :: Matches(pending[k], story, id))
  }

  /** How the request was routed, and whether it waits, agree with the state. */
  ghost predicate RouteMatches(story: Story, waiting: bool, seen: bool, rejected: bool) {
    && (seen <==> story.route.Some?) && (rejected <==> story.route == Some(Unknown))
    && (story.route.None? ==> story == UNTOLD && !waiting)
    && (story.route == Some(Unknown) ==> (waiting <==> !story.cancelled))
    && (story.route.Some? && (story.route.value.Sync? || story.route.value.BadParams?) ==> !waiting && !story.cancelled)
    && (story.cancelled ==> !waiting)
  }

  /** A request answered by its worker is over: nobody carries it, and its verdict stands. */
  ghost predicate OverWhenAnswered(story: Story, waiting: bool, carried: bool) {
    story.route == Some(Async) && !waiting && !story.cancelled ==> story.verdict.Some? && !carried
  }

  ghost predicate Agrees(story: Story, s: State, id: Id) {
    var waiting := id in s.loop.incoming;
    && RouteMatches(story, waiting, id in s.seen, id in s.rejected)
    && ClosuresMatch(story, s.loop.pool, s.events, s.loop.pending, id)
    && OverWhenAnswered(story, waiting, id in Carriers(s))
    && RepliesTo(s.loop.sent, id) == Due(story, waiting)
  }

  lemma OneReplyMore(sent: seq<Response>, r: Response, id: Id)
    ensures RepliesTo(sent + [r], id) == RepliesTo(sent, id) + (if r.id == id then [r.reply] else [])
  {
    var all := sent + [r];
    assert all[..|all| - 1] == sent;
  }

  // ----- a response goes out when its id leaves the queue

  lemma RespondedReplies(l: Loop, id': Id, reply: Reply, id: Id)
    ensures var l' := Responded(l, id', reply);
      && (id in l'.incoming <==> id in l.incoming && id != id')
      && RepliesTo(l'.sent, id) == RepliesTo(l.sent, id) + (if id == id' && id in l.incoming then [reply] else [])
      && l'.pool == l.pool && l'.pending == l.pending
  {
    OneReplyMore(l.sent, Response(id', reply), id);
  }

  lemma CancelledReplies(l: Loop, id': Id, id: Id)
    ensures var l' := Cancelled(l, id');
      && (id in l'.incoming <==> id in l.incoming && id != id')
      && RepliesTo(l'.sent, id)
           == RepliesTo(l.sent, id) + (if id == id' && id in l.incoming then [RequestCanceled] else [])
      && l'.pool == l.pool && l'.pending == l.pending
  {
    OneReplyMore(l.sent, Response(id', RequestCanceled), id);
  }

  // ----- step by step

  lemma ReceivedReplies(l: Loop, id': Id, route: Route, id: Id)
    ensures var l' := Received(l, id', route);
      && (id != id' ==> (id in l'.incoming <==> id in l.incoming) && RepliesTo(l'.sent, id) == RepliesTo(l.sent, id))
      && (id == id' && id !in l.incoming ==>
            && (id in l'.incoming <==> route.Async? || route.Unknown?)
            && RepliesTo(l'.sent, id) == RepliesTo(l.sent, id) + Due(Story(Some(route), false, None, false), true))
      && l'.pending == l.pending
      && l'.pool == l.pool + (if route.Async? then [Run(Cont(id', true), l.minted, false)] else [])
  {
    match route
    case Sync(reply) => OneReplyMore(l.sent, Response(id', reply), id);
    case BadParams => OneReplyMore(l.sent, Response(id', InvalidParams), id);
    case Unknown => OneReplyMore(l.sent, Response(id', MethodNotFound), id);
    case Async =>
  }

  /** A story that begins owes what its route says. */
  lemma RouteIsDue(story: Story, route: Route)
    requires RouteMatches(story, false, false, false)
    ensures var story', waiting := story.(route := Some(route)), route.Async? || route.Unknown?;
      && story' == Story(Some(route), false, None, false)
      && RouteMatches(story', waiting, true, route.Unknown?) && OverWhenAnswered(story', waiting, false)
      && Due(story, false) == []
  {}

  lemma ReceiveOwnAgrees(story: Story, s: State, route: Route, id: Id)
    requires id !in s.seen && Agrees(story, s, id)
    ensures Agrees(story.(route := Some(route)), Apply(s, Receive(id, route)), id)
  {
    RouteIsDue(story, route);
    ReceivedReplies(s.loop, id, route, id);
  }

  lemma ReceiveOtherAgrees(story: Story, s: State, id': Id, route: Route, id: Id)
    requires id' !in s.seen && id' != id && Agrees(story, s, id)
    ensures Agrees(story, Apply(s, Receive(id', route)), id)
  {
    ReceivedReplies(s.loop, id', route, id);
    CarriersOfOthers(s, id', route, id);
  }

  lemma CarriersOfOthers(s: State, id': Id, route: Route, id: Id)
    requires id' !in s.seen && id' != id
    ensures id in Carriers(Apply(s, Receive(id', route))) <==> id in Carriers(s)
  {
    var s' := Apply(s, Receive(id', route));
    ReceivedReplies(s.loop, id', route, id);
    if route.Async? {
      JobEnters(s.loop.pool, Run(Cont(id', true), s.loop.minted, false));
      assert Carriers(s') == Carriers(s) + multiset{id'};
    } else {
      assert s'.loop.pool == s.loop.pool;
      assert Carriers(s') == Carriers(s);
    }
  }

  /** A waiting request owes a cancelled reply once the cancel is told. */
  lemma CancelIsDue(story: Story, seen: bool, rejected: bool)
    requires RouteMatches(story, true, seen, rejected)
    ensures Due(story.(cancelled := true), false) == Due(story, true) + [RequestCanceled]
    ensures RouteMatches(story.(cancelled := true), false, seen, rejected)
  {}

  lemma CancelAgrees(story: Story, s: State, id': Id, id: Id)
    requires Agrees(story, s, id)
    ensures Agrees(Tell(story, s, Cancel(id'), id), Apply(s, Cancel(id')), id)
  {
    CancelledReplies(s.loop, id', id);
    assert Carriers(Apply(s, Cancel(id'))) == Carriers(s);
    if id == id' && id in s.loop.incoming {
      CancelIsDue(story, id in s.seen, id in s.rejected);
    }
  }

  lemma RunPendingAgrees(story: Story, s: State, id: Id)
    requires Agrees(story, s, id)
    ensures Agrees(story, Apply(s, RunPending), id)
  {
    ClosuresStart(s);
  }

  /** A worker's end: its request's story gains a verdict or the deferral, and the event says the same. */
  lemma FinishOwnEvent(story: Story, run: Cont, outcome: Outcome, id: Id)
    requires run.id == id && Matches(run, story, id)
    ensures var story' := story.(verdict := Verdict(outcome, story.deferred), deferred := story.deferred || outcome.Defer?);
      EventMatches(Report(run, outcome), story', id)
  {}

  lemma NoClosureFor(s: State, id: Id)
    requires id !in multiset(EventIds(s.events)) && id !in multiset(ContIds(s.loop.pending))
    ensures forall k | 0 <= k < |s.events| :: s.events[k].Request() != id
    ensures forall k | 0 <= k < |s.loop.pending| :: s.loop.pending[k].id != id
  {
    forall k | 0 <= k < |s.events| ensures s.events[k].Request() != id {
      assert EventIds(s.events)[k] == s.events[k].Request();
    }
    forall k | 0 <= k < |s.loop.pending| ensures s.loop.pending[k].id != id {
      assert ContIds(s.loop.pending)[k] == s.loop.pending[k].id;
    }
  }

  /** The job that ends was the request's only carrier. */
  lemma OnlyCarrier(s: State, j: nat, id: Id)
    requires OneCarrier(Carriers(s), s.seen, s.rejected) && j < |s.loop.pool| && s.loop.pool[j].cont.id == id
    ensures id in Carriers(s) && id in s.seen
    ensures forall k | 0 <= k < |Without(s.loop.pool, j)| :: Without(s.loop.pool, j)[k].cont.id != id
    ensures forall k | 0 <= k < |s.events| :: s.events[k].Request() != id
    ensures forall k | 0 <= k < |s.loop.pending| :: s.loop.pending[k].id != id
  {
    JobLeaves(s.loop.pool, j);
    assert JobIds(s.loop.pool)[j] in Carriers(s);
    var rest := Without(s.loop.pool, j);
    assert id !in multiset(JobIds(rest)) && id !in multiset(EventIds(s.events)) && id !in multiset(ContIds(s.loop.pending));
    NoClosureFor(s, id);
    forall k | 0 <= k < |rest| ensures rest[k].cont.id != id {
      assert JobIds(rest)[k] == rest[k].cont.id;
    }
  }

  lemma FinishKeepsCarriers(s: State, j: nat, event: Event)
    requires j < |s.loop.pool| && event.Request() == s.loop.pool[j].cont.id
    ensures Carriers(s.(loop := s.loop.(pool := Without(s.loop.pool, j)), events := s.events + [event])) == Carriers(s)
  {
    JobLeaves(s.loop.pool, j);
    EventEnters(s.events, event);
  }

  lemma FinishOwnAgrees(story: Story, s: State, j: nat, outcome: Outcome, id: Id)
    requires Inv(s) && Enabled(s, Finish(j, outcome)) && s.loop.pool[j].cont.id == id && Agrees(story, s, id)
    ensures Agrees(Tell(story, s, Finish(j, outcome), id), Apply(s, Finish(j, outcome)), id)
  {
    OnlyCarrier(s, j, id);
    FinishOwnEvent(story, s.loop.pool[j].cont, outcome, id);
    FinishKeepsCarriers(s, j, Report(s.loop.pool[j].cont, outcome));
  }

  lemma FinishOtherAgrees(story: Story, s: State, j: nat, event: Event, id: Id)
    requires j < |s.loop.pool| && event.Request() == s.loop.pool[j].cont.id && Agrees(story, s, id)
    requires s.loop.pool[j].cont.id != id || event == LibraryDecompiled(s.loop.pool[j].cont)
    ensures Agrees(story, s.(loop := s.loop.(pool := Without(s.loop.pool, j)), events := s.events + [event]), id)
  {
    FinishKeepsCarriers(s, j, event);
    var pool := Without(s.loop.pool, j);
    forall k | 0 <= k < |pool| ensures Matches(pool[k].cont, story, id) {
      assert pool[k] == s.loop.pool[if k < j then k else k + 1];
    }
  }

  // ----- the main loop takes an event

  lemma FirstEventLeaves(s: State, l: Loop)
    requires s.events != [] && l.pool == s.loop.pool && l.pending == s.loop.pending
    ensures Carriers(s) == Carriers(s.(loop := l, events := s.events[1..])) + multiset{s.events[0].Request()}
  {
    EventLeaves(s.events);
  }

  lemma LastEventLeaves(s: State, l: Loop)
    requires s.events != [] && l.pool == s.loop.pool && l.pending == s.loop.pending
    requires Carriers(s)[s.events[0].Request()] == 1
    ensures s.events[0].Request() !in Carriers(s.(loop := l, events := s.events[1..]))
  {
    FirstEventLeaves(s, l);
  }

  /** The due replies once a waiting request of a worker is answered. */
  lemma AnswerIsDue(story: Story, reply: Reply, waiting: bool)
    requires story.route.Some? && !story.route.value.Unknown? && story.verdict == Some(reply)
    requires RouteMatches(story, waiting, true, false)
    ensures Due(story, false) == Due(story, waiting) + (if waiting then [reply] else [])
    ensures RouteMatches(story, false, true, false)
  {}

  lemma CompletedOwnAgrees(story: Story, s: State, reply: Reply, id: Id)
    requires s.events != [] && s.events[0] == Completed(id, reply) && Agrees(story, s, id)
    requires story.route.Some? && !story.route.value.Unknown? && Carriers(s)[id] == 1
    ensures Agrees(story, s.(loop := Responded(Forgotten(s.loop, id), id, reply), events := s.events[1..]), id)
  {
    var l := Responded(Forgotten(s.loop, id), id, reply);
    assert EventMatches(s.events[0], story, id);
    RespondedReplies(Forgotten(s.loop, id), id, reply, id);
    LastEventLeaves(s, l);
    AnswerIsDue(story, reply, id in s.loop.incoming);
  }

  lemma CompletedOtherAgrees(story: Story, s: State, id': Id, reply: Reply, id: Id)
    requires s.events != [] && s.events[0] == Completed(id', reply) && id != id' && Agrees(story, s, id)
    ensures Agrees(story, s.(loop := Responded(Forgotten(s.loop, id'), id', reply), events := s.events[1..]), id)
  {
    var l := Responded(Forgotten(s.loop, id'), id', reply);
    RespondedReplies(Forgotten(s.loop, id'), id', reply, id);
    FirstEventLeaves(s, l);
    assert id in Carriers(s) <==> id in Carriers(s.(loop := l, events := s.events[1..]));
  }

  lemma CompletedAgrees(story: Story, s: State, id': Id, reply: Reply, id: Id)
    requires Inv(s) && s.events != [] && s.events[0] == Completed(id', reply) && Agrees(story, s, id)
    ensures Agrees(story, s.(loop := Responded(Forgotten(s.loop, id'), id', reply), events := s.events[1..]), id)
  {
    if id == id' {
      EventCounts(s);
      RoutedToWorker(story, s, id);
      CompletedOwnAgrees(story, s, reply, id);
    } else {
      CompletedOtherAgrees(story, s, id', reply, id);
    }
  }

  /** Who has a carrier was routed to a worker. */
  lemma RoutedToWorker(story: Story, s: State, id: Id)
    requires OneCarrier(Carriers(s), s.seen, s.rejected) && id in Carriers(s)
    requires RouteMatches(story, id in s.loop.incoming, id in s.seen, id in s.rejected)
    ensures story.route.Some? && !story.route.value.Unknown?
  {}

  lemma DroppedAgrees(story: Story, s: State, id': Id, id: Id)
    requires s.events != [] && s.events[0] == Aborted(id') && Agrees(story, s, id)
    ensures Agrees(story, s.(loop := Forgotten(s.loop, id'), events := s.events[1..]), id)
  {
    EventLeaves(s.events);
    var s' := s.(loop := Forgotten(s.loop, id'), events := s.events[1..]);
    assert Carriers(s) == Carriers(s') + multiset{id'};
  }

  lemma QueuedAgrees(story: Story, s: State, l: Loop, run: Cont, id: Id)
    requires s.events != [] && s.events[0].Request() == run.id && Agrees(story, s, id) && Matches(run, story, id)
    requires l == s.loop || l == Forgotten(s.loop, run.id)
    ensures Agrees(story, s.(loop := l.(pending := l.pending + [run]), events := s.events[1..]), id)
  {
    QueueKeepsCarriers(s, l, run);
    var pending := s.loop.pending + [run];
    assert l.pending + [run] == pending;
    forall k | 0 <= k < |pending| ensures Matches(pending[k], story, id) {}
  }

  lemma QueueKeepsCarriers(s: State, l: Loop, run: Cont)
    requires s.events != [] && s.events[0].Request() == run.id
    requires l.pool == s.loop.pool && l.pending == s.loop.pending
    ensures Carriers(s.(loop := l.(pending := l.pending + [run]), events := s.events[1..])) == Carriers(s)
  {
    EventLeaves(s.events);
    ClosureEnters(s.loop.pending, run);
  }

  lemma DecompilingAgrees(story: Story, s: State, run: Cont, id: Id)
    requires s.events != [] && s.events[0].Request() == run.id && Agrees(story, s, id) && Matches(run, story, id)
    ensures Agrees(story, s.(loop := s.loop.(pool := s.loop.pool + [Decompile(run)]), events := s.events[1..]), id)
  {
    var s' := s.(loop := s.loop.(pool := s.loop.pool + [Decompile(run)]), events := s.events[1..]);
    EventLeaves(s.events);
    JobEnters(s.loop.pool, Decompile(run));
    assert Carriers(s') == Carriers(s);
  }

  lemma TakeAgrees(story: Story, s: State, ready: bool, id: Id)
    requires Inv(s) && s.events != [] && Agrees(story, s, id)
    ensures Agrees(story, Apply(s, Take(ready)), id)
  {
    var e := s.events[0];
    assert EventMatches(e, story, id);
    if e.Completed? {
      CompletedAgrees(story, s, e.id, e.reply, id);
    } else if e.Aborted? {
      DroppedAgrees(story, s, e.id, id);
    } else if e.Retry? {
      QueuedAgrees(story, s, Forgotten(s.loop, e.run.id), e.run, id);
    } else if e.LoadLibraryFiles? && e.decompiles && ready {
      DecompilingAgrees(story, s, e.run, id);
    } else {
      QueuedAgrees(story, s, s.loop, e.run, id);
    }
  }

  lemma StepAgrees(story: Story, s: State, step: Step, id: Id)
    requires Inv(s) && Enabled(s, step) && Agrees(story, s, id)
    ensures Agrees(Tell(story, s, step, id), Apply(s, step), id)
  {
    if step.Receive? {
      if step.id == id {
        ReceiveOwnAgrees(story, s, step.route, id);
      } else {
        ReceiveOtherAgrees(story, s, step.id, step.route, id);
      }
    } else if step.Cancel? {
      CancelAgrees(story, s, step.id, id);
    } else if step.Finish? {
      if s.loop.pool[step.job].cont.id == id {
        FinishOwnAgrees(story, s, step.job, step.outcome, id);
      } else {
        FinishOtherAgrees(story, s, step.job, Report(s.loop.pool[step.job].cont, step.outcome), id);
      }
    } else if step.Decompiled? {
      FinishOtherAgrees(story, s, step.job, LibraryDecompiled(s.loop.pool[step.job].cont), id);
    } else if step.Take? {
      TakeAgrees(story, s, step.decompilerReady, id);
    } else {
      RunPendingAgrees(story, s, id);
    }
  }

  lemma {:induction false} StoryAgrees(steps: seq<Step>, id: Id)
    requires Valid(steps)
    ensures Agrees(Told(steps, id), After(steps), id)
  {
    if steps == [] {
      assert Carriers(START) == multiset{};
    } else {
      var n := |steps| - 1;
      StoryAgrees(steps[..n], id);
      EveryRunKeeps(steps[..n]);
      StepAgrees(Told(steps[..n], id), After(steps[..n]), steps[n], id);
    }
  }

  // ----- over every run

  /** The replies sent to a request are those its story calls for. */
  lemma RepliesAreDue(steps: seq<Step>, id: Id)
    requires Valid(steps)
    ensures RepliesTo(After(steps).loop.sent, id) == Due(Told(steps, id), id in After(steps).loop.incoming)
  {
    StoryAgrees(steps, id);
  }

  lemma {:induction false} PrefixIsValid(steps: seq<Step>, k: nat)
    requires Valid(steps) && k <= |steps|
    ensures Valid(steps[..k])
    ensures k < |steps| ==> Enabled(After(steps[..k]), steps[k])
  {
    if k < |steps| {
      var n := |steps| - 1;
      PrefixIsValid(steps[..n], k);
      assert steps[..n][..k] == steps[..k];
    } else {
      assert steps[..k] == steps;
    }
  }

  /** The route told is the one the request was received under. */
  lemma {:induction false} RouteIsReceived(steps: seq<Step>, id: Id, route: Route)
    requires Valid(steps)
    ensures Told(steps, id).route == Some(route) <==> Receive(id, route) in steps
  {
    if steps != [] {
      var n := |steps| - 1;
      RouteIsReceived(steps[..n], id, route);
      StoryAgrees(steps[..n], id);
      assert steps == steps[..n] + [steps[n]];
      forall r | Receive(id, r) in steps[..n] ensures Told(steps[..n], id).route == Some(r) {
        RouteIsReceived(steps[..n], id, r);
      }
    }
  }

  /** A handler's reply, or the refusal, is sent as it is. */
  lemma RoutedReplies(steps: seq<Step>, id: Id, route: Route)
    requires Valid(steps) && Receive(id, route) in steps && !route.Async?
    ensures var replies := RepliesTo(After(steps).loop.sent, id);
      match route
      case Sync(reply) => replies == [reply]
      case BadParams => replies == [InvalidParams]
      case Unknown =>
        replies == [MethodNotFound] + (if id in After(steps).loop.incoming then [] else [RequestCanceled])
  {
    StoryAgrees(steps, id);
    RouteIsReceived(steps, id, route);
  }

  lemma NoReplyUnasked(steps: seq<Step>, id: Id)
    requires Valid(steps) && id !in After(steps).seen
    ensures RepliesTo(After(steps).loop.sent, id) == []
  {
    StoryAgrees(steps, id);
  }

  /** A cancel reached the request while it waited. */
  ghost predicate CancelledWaiting(steps: seq<Step>, id: Id, k: nat)
    requires Valid(steps)
  {
    k < |steps| && steps[k] == Cancel(id) && (PrefixIsValid(steps, k); id in After(steps[..k]).loop.incoming)
  }

  lemma {:induction false} CancelledIff(steps: seq<Step>, id: Id)
    requires Valid(steps)
    ensures Told(steps, id).cancelled <==> exists k :: CancelledWaiting(steps, id, k)
  {
    if steps != [] {
      var n := |steps| - 1;
      CancelledIff(steps[..n], id);
      forall k: nat | k < n ensures CancelledWaiting(steps, id, k) <==> CancelledWaiting(steps[..n], id, k) {
        assert steps[..n][..k] == steps[..k];
      }
      if Told(steps, id).cancelled && !Told(steps[..n], id).cancelled {
        assert CancelledWaiting(steps, id, n);
      }
    }
  }

  /** The log of the request's worker runs: at each step, how the run ended that ends there, if one does. */
  function Runs(steps: seq<Step>, id: Id): (rs: seq<Option<Outcome>>)
    requires Valid(steps)
    ensures |rs| == |steps|
  {
    if steps == [] then []
    else
      var n := |steps| - 1;
      var s, step := After(steps[..n]), steps[n];
      Runs(steps[..n], id)
        + [if step.Finish? && s.loop.pool[step.job].cont.id == id then Some(step.outcome) else None]
  }

  /** No run ends later. */
  ghost predicate IsLastRun(rs: seq<Option<Outcome>>, k: nat) {
    k < |rs| && rs[k].Some? && forall j | k < j < |rs| :: rs[j].None?
  }

  /** An earlier run asked for library files. */
  ghost predicate DeferredBefore(rs: seq<Option<Outcome>>, k: nat) {
    exists j :: 0 <= j < k && j < |rs| && rs[j].Some? && rs[j].value.Defer?
  }

  lemma {:induction false} DeferredIff(steps: seq<Step>, id: Id)
    requires Valid(steps)
    ensures Told(steps, id).deferred <==> DeferredBefore(Runs(steps, id), |steps|)
  {
    if steps != [] {
      var n := |steps| - 1;
      var rs, before := Runs(steps, id), Runs(steps[..n], id);
      DeferredIff(steps[..n], id);
      assert rs[..n] == before;
      DeferredOneMore(before, rs[n]);
      assert before + [rs[n]] == rs;
    }
  }

  lemma DeferredOneMore(rs: seq<Option<Outcome>>, r: Option<Outcome>)
    ensures DeferredBefore(rs + [r], |rs| + 1) <==> DeferredBefore(rs, |rs|) || (r.Some? && r.value.Defer?)
  {
    var all := rs + [r];
    forall j | 0 <= j < |rs| ensures all[j] == rs[j] {}
    assert all[|rs|] == r;
  }

  lemma DeferredEarlier(rs: seq<Option<Outcome>>, r: Option<Outcome>, k: nat)
    requires k <= |rs|
    ensures DeferredBefore(rs + [r], k) <==> DeferredBefore(rs, k)
  {
    forall j | 0 <= j < k ensures (rs + [r])[j] == rs[j] {}
  }

  /** The verdict is what the last run has to say. */
  lemma {:induction false} LastRunDecides(steps: seq<Step>, id: Id) returns (k: nat)
    requires Valid(steps) && Told(steps, id).verdict.Some?
    ensures var rs := Runs(steps, id);
      IsLastRun(rs, k) && Told(steps, id).verdict == Verdict(rs[k].value, DeferredBefore(rs, k))
  {
    var n := |steps| - 1;
    var rs, before := Runs(steps, id), Runs(steps[..n], id);
    assert rs == before + [rs[n]];
    if rs[n].Some? {
      k := n;
      DeferredIff(steps[..n], id);
    } else {
      k := LastRunDecides(steps[..n], id);
    }
    DeferredEarlier(before, rs[n], k);
  }

  /** An answer is delivered as it is, a failure is an internal error, a second call for library files is null. */
  ghost predicate Says(outcome: Outcome, deferred: bool, replies: seq<Reply>) {
    match outcome
    case Answer(value) => replies == [Result(value)]
    case Failure => replies == [InternalError]
    case Panicked => replies == [Result("content modified")]
    case Defer(_) => deferred && replies == [Result("null")]
    case _ => false
  }

  lemma VerdictSays(outcome: Outcome, deferred: bool)
    ensures var verdict := Verdict(outcome, deferred); verdict.Some? ==> Says(outcome, deferred, [verdict.value])
  {}

  /**
   A request handed to a worker, once off the queue, has one reply: cancelled if a cancel
   found it waiting, and otherwise what its last run says.
   */
  lemma WorkerReply(steps: seq<Step>, id: Id)
    requires Valid(steps) && Receive(id, Async) in steps && id !in After(steps).loop.incoming
    ensures var replies := RepliesTo(After(steps).loop.sent, id);
      && |replies| == 1
      && ((exists k :: CancelledWaiting(steps, id, k)) ==> replies == [RequestCanceled])
      && ((forall k :: !CancelledWaiting(steps, id, k)) ==>
            var rs := Runs(steps, id);
            exists k: nat :: IsLastRun(rs, k) && Says(rs[k].value, DeferredBefore(rs, k), replies))
  {
    StoryAgrees(steps, id);
    RouteIsReceived(steps, id, Async);
    CancelledIff(steps, id);
    var story := Told(steps, id);
    if !story.cancelled {
      var k := LastRunDecides(steps, id);
      var rs := Runs(steps, id);
      VerdictSays(rs[k].value, DeferredBefore(rs, k));
      assert IsLastRun(rs, k);
    }
  }
}
