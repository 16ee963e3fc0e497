/**
 The request bookkeeping of `crates/caffeine-ls/src/global_state.rs` and the event
 handler of `crates/caffeine-ls/src/main_loop.rs`: which requests wait for an
 answer, which jobs run for them, and what each message does to both.
 */
module GlobalStates {
  type Id = string

  /** The identity of a cancellation token: a shared flag. */
  type Token = nat

  /** A retry closure: the request it serves, and whether it may still ask for library files. */
  datatype Cont = Cont(id: Id, allowDefer: bool)

  /**
   What was handed to the thread pool. `retried` marks the runs started from the
   pending list; nothing reads it, it is there to speak about runs.
   */
  datatype Job =
    | Run(cont: Cont, token: Token, retried: bool)
    | Decompile(cont: Cont)

  datatype Reply = Result(value: string) | InternalError | InvalidParams | MethodNotFound | RequestCanceled

  datatype Response = Response(id: Id, reply: Reply)

  datatype Event =
    | Completed(id: Id, reply: Reply)
    | Retry(run: Cont)
    | Aborted(id: Id)
    | LoadLibraryFiles(decompiles: bool, run: Cont)
    | LibraryDecompiled(run: Cont)
  {
    function Request(): Id {
      match this
      case Completed(id, _) => id
      case Retry(run) => run.id
      case Aborted(id) => id
      case LoadLibraryFiles(_, run) => run.id
      case LibraryDecompiled(run) => run.id
    }
  }

  /** How a worker can end. */
  datatype Outcome = Answer(value: string) | PendingWrite | ClientCancelled | Panicked | Defer(decompiles: bool) | Failure

  const CONTENT_MODIFIED := "content modified"
  const NULL := "null"

  /** The event a finished worker posts: a run that may not defer again answers null instead. */
  function Report(run: Cont, outcome: Outcome): (e: Event)
    ensures e.Request() == run.id
    ensures e.LoadLibraryFiles? ==> run.allowDefer && !e.run.allowDefer
    ensures e.Aborted? <==> outcome.ClientCancelled?
    ensures e.Retry? ==> e.run == run
    ensures !e.LibraryDecompiled?
  {
    match outcome
    case Answer(value) => Completed(run.id, Result(value))
    case PendingWrite => Retry(run)
    case ClientCancelled => Aborted(run.id)
    case Panicked => Completed(run.id, Result(CONTENT_MODIFIED))
    case Defer(decompiles) =>
      if run.allowDefer then LoadLibraryFiles(decompiles, run.(allowDefer := false))
      else Completed(run.id, Result(NULL))
    case Failure => Completed(run.id, InternalError)
  }

  /** Where a request goes. */
  datatype Route = Sync(reply: Reply) | Async | BadParams | Unknown

  // ----- specification: the state and what each operation makes of it

  datatype Loop = Loop(
    incoming: set<Id>, tokens: map<Id, Token>, flagged: set<Token>, minted: nat,
    pending: seq<Cont>, pool: seq<Job>, sent: seq<Response>)

  const INITIAL := Loop({}, map[], {}, 0, [], [], [])

  /** Answers a request unless it has been answered already. */
  function Responded(s: Loop, id: Id, reply: Reply): Loop {
    if id in s.incoming then s.(incoming := s.incoming - {id}, sent := s.sent + [Response(id, reply)]) else s
  }

  function Cancelled(s: Loop, id: Id): Loop {
    Responded(
      if id in s.tokens then s.(flagged := s.flagged + {s.tokens[id]}) else s, id, RequestCanceled)
  }

  /** The token is registered under the id, and the run carries it. */
  function Started(s: Loop, id: Id): Loop {
    s.(tokens := s.tokens[id := s.minted], minted := s.minted + 1,
       pool := s.pool + [Run(Cont(id, true), s.minted, false)])
  }

  function Received(s: Loop, id: Id, route: Route): Loop {
    var s := s.(incoming := s.incoming + {id});
    match route
    case Sync(reply) => Responded(s, id, reply)
    case Async => Started(s, id)
    case BadParams => Responded(s, id, InvalidParams)
    case Unknown => s.(sent := s.sent + [Response(id, MethodNotFound)])
  }

  function Forgotten(s: Loop, id: Id): Loop {
    s.(tokens := s.tokens - {id})
  }

  function Handled(s: Loop, event: Event, decompilerReady: bool): Loop {
    match event
    case Completed(id, reply) => Responded(Forgotten(s, id), id, reply)
    case Retry(run) => Forgotten(s, run.id).(pending := s.pending + [run])
    case Aborted(id) => Forgotten(s, id)
    case LoadLibraryFiles(decompiles, run) =>
      if decompiles && decompilerReady then s.(pool := s.pool + [Decompile(run)])
      else s.(pending := s.pending + [run])
    case LibraryDecompiled(run) => s.(pending := s.pending + [run])
  }

  /** The jobs of the pending closures, each with a token of its own. */
  function Rerun(pending: seq<Cont>, minted: nat): seq<Job> {
    seq(|pending|, k requires 0 <= k < |pending| => Run(pending[k], minted + k, true))
  }

  function PendingRun(s: Loop): Loop {
    s.(pending := [], minted := s.minted + |s.pending|, pool := s.pool + Rerun(s.pending, s.minted))
  }

  // ----- the object

  class GlobalState {
    var incoming: set<Id>
    var inflightCancellations: map<Id, Token>
    var flagged: set<Token>
    var minted: nat
    var pendingRequests: seq<Cont>
    var pool: seq<Job>
    var sent: seq<Response>

    function View(): Loop
      reads this
    {
      Loop(incoming, inflightCancellations, flagged, minted, pendingRequests, pool, sent)
    }

    constructor ()
      ensures View() == INITIAL
    {
      incoming, inflightCancellations, flagged, minted := {}, map[], {}, 0;
      pendingRequests, pool, sent := [], [], [];
    }

    method Send(response: Response)
      modifies this`sent
      ensures sent == old(sent) + [response]
    {
      sent := sent + [response];
    }

    /** Takes the id off the queue; false if it had gone before. */
    method Complete(id: Id) returns (known: bool)
      modifies this`incoming
      ensures known == (id in old(incoming)) && incoming == old(incoming) - {id}
    {
      known := id in incoming;
      incoming := incoming - {id};
    }

    method Respond(id: Id, reply: Reply)
      modifies this
      ensures View() == Responded(old(View()), id, reply)
    {
      var known := Complete(id);
      if !known {
        return;
      }
      Send(Response(id, reply));
    }

    method ReplyNotImplemented(id: Id)
      modifies this`sent
      ensures sent == old(sent) + [Response(id, MethodNotFound)]
    {
      Send(Response(id, MethodNotFound));
    }

    method MintToken() returns (token: Token)
      modifies this`minted
      ensures token == old(minted) && minted == old(minted) + 1
    {
      token := minted;
      minted := minted + 1;
    }

    method RegisterAsyncCancellation(id: Id) returns (token: Token)
      modifies this`minted, this`inflightCancellations
      ensures token == old(minted) && minted == old(minted) + 1
      ensures inflightCancellations == old(inflightCancellations)[id := token]
    {
      token := MintToken();
      inflightCancellations := inflightCancellations[id := token];
    }

    method RemoveAsyncCancellation(id: Id)
      modifies this
      ensures View() == Forgotten(old(View()), id)
    {
      inflightCancellations := inflightCancellations - {id};
    }

    method Execute(job: Job)
      modifies this`pool
      ensures pool == old(pool) + [job]
    {
      pool := pool + [job];
    }

    method HandleRequest(id: Id, route: Route)
      modifies this
      ensures View() == Received(old(View()), id, route)
    {
      incoming := incoming + {id};
      match route
      case Sync(reply) => Respond(id, reply);
      case Async =>
        var token := RegisterAsyncCancellation(id);
        Execute(Run(Cont(id, true), token, false));
      case BadParams => Respond(id, InvalidParams);
      case Unknown => ReplyNotImplemented(id);
    }

    method Cancel(id: Id)
      modifies this
      ensures View() == Cancelled(old(View()), id)
    {
      if id in inflightCancellations {
        flagged := flagged + {inflightCancellations[id]};
      }
      Respond(id, RequestCanceled);
    }

    method HandleBackgroundTask(event: Event, decompilerReady: bool)
      modifies this
      ensures View() == Handled(old(View()), event, decompilerReady)
    {
      match event
      case Completed(id, reply) =>
        RemoveAsyncCancellation(id);
        Respond(id, reply);
      case Retry(run) =>
        RemoveAsyncCancellation(run.id);
        pendingRequests := pendingRequests + [run];
      case Aborted(id) => RemoveAsyncCancellation(id);
      case LoadLibraryFiles(decompiles, run) =>
        if !decompiles {
          pendingRequests := pendingRequests + [run];
        } else {
          DecompileLibraryFiles(run, decompilerReady);
        }
      case LibraryDecompiled(run) => pendingRequests := pendingRequests + [run];
    }

    /** Without a decompiler, or before a workspace is loaded, the request is just run again. */
    method DecompileLibraryFiles(run: Cont, decompilerReady: bool)
      modifies this
      ensures View() == Handled(old(View()), LoadLibraryFiles(true, run), decompilerReady)
    {
      if !decompilerReady {
        pendingRequests := pendingRequests + [run];
        return;
      }
      Execute(Decompile(run));
    }

    method RunPendingRequests()
      modifies this
      ensures View() == PendingRun(old(View()))
    {
      var pending := pendingRequests;
      pendingRequests := [];
      for k := 0 to |pending|
        invariant View() == old(View()).(
          pending := [], minted := old(minted) + k, pool := old(pool) + Rerun(pending[..k], old(minted)))
      {
        var token := MintToken();
        Execute(Run(pending[k], token, true));
        assert Rerun(pending[..k + 1], old(minted)) == Rerun(pending[..k], old(minted)) + [Run(pending[k], token, true)];
      }
      assert pending[..|pending|] == pending;
    }
  }
}
