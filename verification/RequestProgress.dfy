/**
 How much work a request can cause: it loads library files at most once, and takes
 a bounded number of turns between two interruptions by a pending write.
 */
module RequestProgress {
  import opened GlobalStates
  import opened RequestRuns

  // ----- library files are asked for once

  predicate LoadsNow(s: State, step: Step, id: Id) {
    && step.Finish? && Enabled(s, step) && s.loop.pool[step.job].cont.id == id
    && Report(s.loop.pool[step.job].cont, step.outcome).LoadLibraryFiles?
  }

  /** How often library files were asked for on behalf of a request. */
  function Loads(steps: seq<Step>, id: Id): nat
    requires Valid(steps)
  {
    if steps == [] then 0
    else
      var n := |steps| - 1;
      Loads(steps[..n], id) + if LoadsNow(After(steps[..n]), steps[n], id) then 1 else 0
  }

  predicate Carries(e: Event, id: Id) {
    (e.Retry? || e.LoadLibraryFiles? || e.LibraryDecompiled?) && e.run.id == id
  }

  /** No closure of the request may ask for library files any more. */
  ghost predicate Spent(s: State, id: Id) {
    && id in s.seen
    && (forall k | 0 <= k < |s.loop.pool| && s.loop.pool[k].cont.id == id :: !s.loop.pool[k].cont.allowDefer)
    && (forall k | 0 <= k < |s.events| && Carries(s.events[k], id) :: !s.events[k].run.allowDefer)
    && (forall k | 0 <= k < |s.loop.pending| && s.loop.pending[k].id == id :: !s.loop.pending[k].allowDefer)
  }

  lemma StaysSpent(s: State, step: Step, id: Id)
    requires Enabled(s, step) && Spent(s, id)
    ensures Spent(Apply(s, step), id) && !LoadsNow(s, step, id)
  {
    var s' := Apply(s, step);
    var pool, pool' := s.loop.pool, s'.loop.pool;
    if step.Finish? || step.Decompiled? {
      assert !pool[step.job].cont.allowDefer || pool[step.job].cont.id != id;
      forall k | 0 <= k < |pool'| && pool'[k].cont.id == id ensures !pool'[k].cont.allowDefer {
        assert pool'[k] == pool[if k < step.job then k else k + 1];
      }
    }
  }

  /** The one carrier of the request is now an event whose closure may not ask again. */
  lemma LoadingSpends(s: State, step: Step, id: Id)
    requires Inv(s) && Enabled(s, step) && LoadsNow(s, step, id)
    ensures Spent(Apply(s, step), id)
  {
    var s' := Apply(s, step);
    JobLeaves(s.loop.pool, step.job);
    assert Carriers(s)[id] == 1 by {
      assert JobIds(s.loop.pool)[step.job] in Carriers(s);
    }
    var rest := JobIds(s'.loop.pool);
    assert id !in multiset(rest) && id !in multiset(EventIds(s.events)) && id !in multiset(ContIds(s.loop.pending));
    forall k | 0 <= k < |s'.loop.pool| ensures s'.loop.pool[k].cont.id != id {
      assert rest[k] == s'.loop.pool[k].cont.id;
    }
    forall k | 0 <= k < |s.events| ensures s.events[k].Request() != id {
      assert EventIds(s.events)[k] == s.events[k].Request();
    }
    forall k | 0 <= k < |s.loop.pending| ensures s.loop.pending[k].id != id {
      assert ContIds(s.loop.pending)[k] == s.loop.pending[k].id;
    }
    assert id in s.seen;
  }

  lemma {:induction false} LoadsAtMostOnce(steps: seq<Step>, id: Id)
    requires Valid(steps)
    ensures Loads(steps, id) <= 1
    ensures Loads(steps, id) == 1 ==> Spent(After(steps), id)
  {
    if steps != [] {
      var n := |steps| - 1;
      var s := After(steps[..n]);
      LoadsAtMostOnce(steps[..n], id);
      EveryRunKeeps(steps[..n]);
      if Loads(steps[..n], id) == 1 {
        StaysSpent(s, steps[n], id);
      } else if LoadsNow(s, steps[n], id) {
        LoadingSpends(s, steps[n], id);
      }
    }
  }

  // ----- turns between two interruptions

  /** The turns a closure's run may still need: first runs may go through a load and a decompile. */
  function Base(run: Cont): nat {
    if run.allowDefer then 7 else 2
  }

  function JobRank(job: Job, id: Id): nat {
    if job.cont.id != id then 0 else if job.Run? then Base(job.cont) else Base(job.cont) + 3
  }

  function EventRank(event: Event, id: Id): nat {
    if event.Request() != id then 0
    else
      match event
      case Completed(_, _) => 1
      case Aborted(_) => 1
      case Retry(run) => Base(run) + 2
      case LoadLibraryFiles(_, run) => Base(run) + 4
      case LibraryDecompiled(run) => Base(run) + 2
  }

  function ContRank(run: Cont, id: Id): nat {
    if run.id != id then 0 else Base(run) + 1
  }

  function Total<T>(xs: seq<T>, rank: T -> nat): nat {
    if xs == [] then 0 else Total(xs[..|xs| - 1], rank) + rank(xs[|xs| - 1])
  }

  lemma TotalWith<T>(xs: seq<T>, x: T, rank: T -> nat)
    ensures Total(xs + [x], rank) == Total(xs, rank) + rank(x)
  {
    var all := xs + [x];
    assert all[..|all| - 1] == xs;
  }

  lemma {:induction false} TotalOfSum<T>(xs: seq<T>, ys: seq<T>, rank: T -> nat)
    ensures Total(xs + ys, rank) == Total(xs, rank) + Total(ys, rank)
  {
    if ys == [] {
      assert xs + ys == xs;
    } else {
      var front, last := ys[..|ys| - 1], ys[|ys| - 1];
      TotalOfSum(xs, front, rank);
      TotalWith(xs + front, last, rank);
      assert xs + ys == xs + front + [last];
    }
  }

  lemma {:induction false} TotalAround<T>(front: seq<T>, x: T, back: seq<T>, rank: T -> nat)
    ensures Total(front + [x] + back, rank) == Total(front + back, rank) + rank(x)
  {
    if back == [] {
      assert front + [x] + back == front + [x] && front + back == front;
      TotalWith(front, x, rank);
    } else {
      var middle, last := back[..|back| - 1], back[|back| - 1];
      TotalAround(front, x, middle, rank);
      assert front + [x] + back == front + [x] + middle + [last];
      assert front + back == front + middle + [last];
      TotalWith(front + [x] + middle, last, rank);
      TotalWith(front + middle, last, rank);
    }
  }

  lemma SplitAt<T>(xs: seq<T>, k: nat)
    requires k < |xs|
    ensures xs[..k] + [xs[k]] + xs[k + 1..] == xs
  {}

  lemma TotalWithout<T>(xs: seq<T>, k: nat, rank: T -> nat)
    requires k < |xs|
    ensures Total(xs, rank) == Total(Without(xs, k), rank) + rank(xs[k])
  {
    SplitAt(xs, k);
    TotalAround(xs[..k], xs[k], xs[k + 1..], rank);
  }

  lemma TotalAfterFirst<T>(xs: seq<T>, rank: T -> nat)
    requires xs != []
    ensures Total(xs, rank) == Total(xs[1..], rank) + rank(xs[0])
  {
    TotalWithout(xs, 0, rank);
    assert Without(xs, 0) == xs[1..];
  }

  function OfJob(id: Id): Job -> nat { (job: Job) => JobRank(job, id) }
  function OfEvent(id: Id): Event -> nat { (event: Event) => EventRank(event, id) }
  function OfCont(id: Id): Cont -> nat { (run: Cont) => ContRank(run, id) }
  function IsOf(id: Id): Cont -> nat { (run: Cont) => if run.id == id then 1 else 0 }

  function Rank(s: State, id: Id): nat {
    Total(s.loop.pool, OfJob(id)) + Total(s.events, OfEvent(id)) + Total(s.loop.pending, OfCont(id))
  }

  /** The turns a step takes for the request: a worker's end, an event handled, a closure run. */
  function TurnsNow(s: State, step: Step, id: Id): nat
    requires Enabled(s, step)
  {
    match step
    case Finish(j, _) => if s.loop.pool[j].cont.id == id then 1 else 0
    case Decompiled(j) => if s.loop.pool[j].cont.id == id then 1 else 0
    case Take(_) => if s.events[0].Request() == id then 1 else 0
    case RunPending => Total(s.loop.pending, IsOf(id))
    case _ => 0
  }

  /** The step is a worker of this request interrupted by a pending write. */
  function WritesNow(s: State, step: Step, id: Id): nat
    requires Enabled(s, step)
  {
    if step.Finish? && step.outcome.PendingWrite? && s.loop.pool[step.job].cont.id == id then 1 else 0
  }

  /** The step accepts the request. */
  function StartsNow(step: Step, id: Id): nat {
    if step == Receive(id, Async) then 1 else 0
  }

  lemma FinishPays(s: State, j: nat, event: Event, id: Id)
    requires j < |s.loop.pool| && event.Request() == s.loop.pool[j].cont.id
    ensures var s' := s.(loop := s.loop.(pool := Without(s.loop.pool, j)), events := s.events + [event]);
      Rank(s', id) + JobRank(s.loop.pool[j], id) == Rank(s, id) + EventRank(event, id)
  {
    TotalWithout(s.loop.pool, j, OfJob(id));
    TotalWith(s.events, event, OfEvent(id));
  }

  lemma TakePays(s: State, ready: bool, id: Id)
    requires s.events != []
    ensures Rank(Apply(s, Take(ready)), id) + TurnsNow(s, Take(ready), id) <= Rank(s, id)
  {
    var e := s.events[0];
    TotalAfterFirst(s.events, OfEvent(id));
    if e.Retry? || e.LoadLibraryFiles? || e.LibraryDecompiled? {
      TotalWith(s.loop.pending, e.run, OfCont(id));
      TotalWith(s.loop.pool, Decompile(e.run), OfJob(id));
    }
  }

  lemma {:induction false} RerunPays(pending: seq<Cont>, minted: nat, id: Id)
    ensures Total(Rerun(pending, minted), OfJob(id)) + Total(pending, IsOf(id)) == Total(pending, OfCont(id))
  {
    if pending != [] {
      var n := |pending| - 1;
      RerunPays(pending[..n], minted, id);
      assert Rerun(pending, minted)[..n] == Rerun(pending[..n], minted);
    }
  }

  lemma ReceivePays(s: State, id': Id, route: Route, id: Id)
    requires id' !in s.seen
    ensures Rank(Apply(s, Receive(id', route)), id) <= Rank(s, id) + 7 * StartsNow(Receive(id', route), id)
  {
    TotalWith(s.loop.pool, Run(Cont(id', true), s.loop.minted, false), OfJob(id));
  }

  lemma CancelPays(s: State, id': Id, id: Id)
    ensures Rank(s.(loop := Cancelled(s.loop, id')), id) == Rank(s, id)
  {}

  lemma RunPendingPays(s: State, id: Id)
    ensures Rank(s.(loop := PendingRun(s.loop)), id) + Total(s.loop.pending, IsOf(id)) == Rank(s, id)
  {
    RerunPays(s.loop.pending, s.loop.minted, id);
    TotalOfSum(s.loop.pool, Rerun(s.loop.pending, s.loop.minted), OfJob(id));
  }

  lemma StepPays(s: State, step: Step, id: Id)
    requires Enabled(s, step)
    ensures Rank(Apply(s, step), id) + TurnsNow(s, step, id)
         <= Rank(s, id) + 3 * WritesNow(s, step, id) + 7 * StartsNow(step, id)
  {
    match step
    case Receive(id', route) => ReceivePays(s, id', route, id);
    case Cancel(id') => CancelPays(s, id', id);
    case Finish(j, outcome) => FinishPays(s, j, Report(s.loop.pool[j].cont, outcome), id);
    case Decompiled(j) => FinishPays(s, j, LibraryDecompiled(s.loop.pool[j].cont), id);
    case Take(ready) => TakePays(s, ready, id);
    case RunPending => RunPendingPays(s, id);
  }

  function Turns(steps: seq<Step>, id: Id): nat
    requires Valid(steps)
  {
    if steps == [] then 0
    else
      var n := |steps| - 1;
      Turns(steps[..n], id) + TurnsNow(After(steps[..n]), steps[n], id)
  }

  function Writes(steps: seq<Step>, id: Id): nat
    requires Valid(steps)
  {
    if steps == [] then 0
    else
      var n := |steps| - 1;
      Writes(steps[..n], id) + WritesNow(After(steps[..n]), steps[n], id)
  }

  function Starts(steps: seq<Step>, id: Id): nat {
    if steps == [] then 0 else Starts(steps[..|steps| - 1], id) + StartsNow(steps[|steps| - 1], id)
  }

  /** What was spent and what is still due never exceed seven turns, and three more per interruption. */
  lemma {:induction false} TurnsAndRankBounded(steps: seq<Step>, id: Id)
    requires Valid(steps)
    ensures Turns(steps, id) + Rank(After(steps), id) <= 7 * Starts(steps, id) + 3 * Writes(steps, id)
  {
    if steps != [] {
      var n := |steps| - 1;
      TurnsAndRankBounded(steps[..n], id);
      StepPays(After(steps[..n]), steps[n], id);
    }
  }

  lemma {:induction false} StartsOnce(steps: seq<Step>, id: Id)
    requires Valid(steps)
    ensures Starts(steps, id) <= if id in After(steps).seen then 1 else 0
  {
    if steps != [] {
      StartsOnce(steps[..|steps| - 1], id);
    }
  }

  /** A request served fairly is over after at most seven turns, plus three for every pending write that hit it. */
  lemma TurnsAreBounded(steps: seq<Step>, id: Id)
    requires Valid(steps)
    ensures Turns(steps, id) <= 7 + 3 * Writes(steps, id)
  {
    TurnsAndRankBounded(steps, id);
    StartsOnce(steps, id);
  }

  /** One more step of a run, and what it adds. */
  lemma OneMoreTurn(steps: seq<Step>, step: Step, id: Id)
    requires Valid(steps) && Enabled(After(steps), step)
    ensures Valid(steps + [step]) && After(steps + [step]) == Apply(After(steps), step)
    ensures Turns(steps + [step], id) == Turns(steps, id) + TurnsNow(After(steps), step, id)
    ensures Writes(steps + [step], id) == Writes(steps, id) + WritesNow(After(steps), step, id)
  {
    OneMore(steps, step);
    var all := steps + [step];
    assert all[..|all| - 1] == steps && all[|all| - 1] == step;
  }

  /** The request asks for a class to be decompiled, which is done. */
  lemma DeferredAndDecompiled(id: Id) returns (steps: seq<Step>)
    ensures Valid(steps) && Turns(steps, id) == 4 && Writes(steps, id) == 0
    ensures After(steps) == State(
      Loop({id}, map[id := 0], {}, 1, [Cont(id, false)], [], []), [], {id}, {})
  {
    var first, rerun := Cont(id, true), Cont(id, false);
    var received := State(Loop({id}, map[id := 0], {}, 1, [], [Run(first, 0, false)], []), [], {id}, {});
    steps := [Receive(id, Async)];
    OneMoreTurn([], Receive(id, Async), id);
    assert [] + [Receive(id, Async)] == steps;
    assert After(steps) == received;
    OneMoreTurn(steps, Finish(0, Defer(true)), id);
    steps := steps + [Finish(0, Defer(true))];
    assert After(steps) == received.(loop := received.loop.(pool := []), events := [LoadLibraryFiles(true, rerun)]);
    OneMoreTurn(steps, Take(true), id);
    steps := steps + [Take(true)];
    assert After(steps) == received.(loop := received.loop.(pool := [Decompile(rerun)]));
    OneMoreTurn(steps, Decompiled(0), id);
    steps := steps + [Decompiled(0)];
    assert After(steps) == received.(loop := received.loop.(pool := []), events := [LibraryDecompiled(rerun)]);
    OneMoreTurn(steps, Take(true), id);
    steps := steps + [Take(true)];
  }

  /** Seven turns without a pending write do happen: a request that has a class decompiled first. */
  lemma SevenTurnsHappen(id: Id, value: string) returns (steps: seq<Step>)
    ensures Valid(steps) && Turns(steps, id) == 7 && Writes(steps, id) == 0
    ensures After(steps).loop.sent == [Response(id, Result(value))]
  {
    steps := DeferredAndDecompiled(id);
    var rerun := Cont(id, false);
    var queued := After(steps);
    assert Total([rerun], IsOf(id)) == 1 by {
      assert [rerun][..0] == [];
    }
    OneMoreTurn(steps, RunPending, id);
    steps := steps + [RunPending];
    assert After(steps) == queued.(loop := queued.loop.(pending := [], minted := 2, pool := [Run(rerun, 1, true)]));
    OneMoreTurn(steps, Finish(0, Answer(value)), id);
    steps := steps + [Finish(0, Answer(value))];
    assert After(steps).events == [Completed(id, Result(value))];
    assert After(steps).loop.incoming == {id} && After(steps).loop.sent == [];
    OneMoreTurn(steps, Take(true), id);
    steps := steps + [Take(true)];
  }
}
