/** Tearing down one raw-socket session worker
    (`com.iterative.groovy.service.ClientTaskThread.kill`): interrupt, close
    the client socket, wait a bounded time, and stop the thread by force if
    it is still alive. Thread timing is not modelled: what happens during
    the wait is an oracle input. */
module ClientTaskThread {

  /** A session worker thread, known by the `clientSequence` value its name
      was made from. */
  datatype Worker = Worker(sequence: int)

  /** The bound, in milliseconds, of the wait in `kill`. */
  const JoinMillis: int := 500

  /** What `join(500)` meets. A worker that has already finished makes
      `join` return at once: it neither waits nor throws. For a running
      worker, the oracle says whether the killing thread is interrupted
      during the wait, and whether the worker is still alive when `isAlive`
      is checked afterwards. */
  datatype JoinOracle =
    | AlreadyFinished
    | Running(interruptedWhileWaiting: bool, aliveAfterWait: bool)

  /** The worker is still alive at the `isAlive` check. */
  predicate AliveAfterWait(o: JoinOracle) {
    o.Running? && o.aliveAfterWait
  }

  /** The killing thread is interrupted during a wait that really happens. */
  predicate InterruptedDuringWait(o: JoinOracle) {
    o.Running? && o.interruptedWhileWaiting
  }

  datatype Action =
    | Interrupt(w: Worker)
    | CloseSocket(w: Worker)
    | Join(w: Worker, millis: int)
    | RestoreInterrupt
    | ForceStop(w: Worker)

  datatype Fate = Joined | ForceStopped

  /** One `kill()`: the calls made, the worker's fate, and the killing
      thread's interrupt flag afterwards. */
  datatype KillReport = KillReport(worker: Worker, actions: seq<Action>, fate: Fate, callerInterrupted: bool)

  /** `kill()`. `join` waits only while the worker is alive, and it is the
      wait that throws `InterruptedException`: at once when the caller's
      interrupt flag is already set, or when the flag is set during the
      wait. The exception clears the flag and the handler sets it again, so
      the flag survives either way. */
  function Kill(w: Worker, callerInterrupted: bool, o: JoinOracle): (r: KillReport)
    ensures r.worker == w
    ensures 3 <= |r.actions| <= 5 && r.actions[..3] == [Interrupt(w), CloseSocket(w), Join(w, JoinMillis)]
    ensures forall k :: 3 <= k < |r.actions| ==> r.actions[k] == RestoreInterrupt || r.actions[k] == ForceStop(w)
    ensures forall k :: 0 <= k < |r.actions| && r.actions[k].Join? ==> k == 2
    ensures ForceStop(w) in r.actions <==> o.Running? && o.aliveAfterWait
    ensures AliveAfterWait(o) ==> r.actions[|r.actions| - 1] == ForceStop(w)
    ensures r.fate == ForceStopped <==> o.Running? && o.aliveAfterWait
    ensures RestoreInterrupt in r.actions <==> o.Running? && (callerInterrupted || o.interruptedWhileWaiting)
    ensures o.AlreadyFinished? ==> r.actions == [Interrupt(w), CloseSocket(w), Join(w, JoinMillis)] && r.fate == Joined
    ensures r.callerInterrupted <==> callerInterrupted || (o.Running? && o.interruptedWhileWaiting)
  {
    var joinThrows := o.Running? && (callerInterrupted || o.interruptedWhileWaiting);
    var wait := [Interrupt(w), CloseSocket(w), Join(w, JoinMillis)];
    var restore := if joinThrows then [RestoreInterrupt] else [];
    var stop := if AliveAfterWait(o) then [ForceStop(w)] else [];
    KillReport(w, wait + restore + stop, if AliveAfterWait(o) then ForceStopped else Joined,
               callerInterrupted || InterruptedDuringWait(o))
  }
}

/** The raw-socket acceptor (`com.iterative.groovy.service.GroovyShellAcceptor`):
    a registry of session workers and a name counter, driven by the outcomes
    of `accept` and by the acceptor thread's interrupt flag. */
module GroovyShellAcceptor {
  import opened JavaPrims
  import JavaInteger
  import opened ClientTaskThread

  /** The registered workers in list order, the JVM-wide `clientSequence`,
      and whether the server socket is open. */
  datatype Registry = Registry(workers: seq<Worker>, sequence: int, serverOpen: bool)

  datatype Construction = Constructed(registry: Registry) | IllegalPort | BindFailed

  /** The constructor: ports up to 0 are refused before any socket exists;
      whether the `ServerSocket` can be bound is an oracle input. */
  function New(port: int, sequence: int, bindSucceeds: bool): (c: Construction)
    ensures port <= 0 ==> c == IllegalPort
    ensures c.Constructed? <==> port > 0 && bindSucceeds
    ensures c.Constructed? ==> c.registry.workers == [] && c.registry.serverOpen
  {
    if port <= 0 then IllegalPort
    else if !bindSucceeds then BindFailed
    else Constructed(Registry([], sequence, true))
  }

  /** `clientSequence++` on a Java `int`: wraps from the maximum to the minimum. */
  function NextSequence(n: int): (m: int)
    requires InInt32(n)
    ensures InInt32(m)
    ensures n < IntMax ==> m == n + 1
    ensures n == IntMax ==> m == IntMin
  {
    if n == IntMax then IntMin else n + 1
  }

  const NamePrefix: string := "GroovyShClient-"

  function WorkerName(n: int): string
  {
    NamePrefix + JavaInteger.FormatInt(n)
  }

  /** The thread name of a worker: the prefix, then the sequence value in
      decimal. */
  function ThreadName(w: Worker): string
  {
    WorkerName(w.sequence)
  }

  /** Distinct sequence values give distinct worker names. */
  lemma WorkerNamesDistinct(a: int, b: int)
    requires InInt32(a) && InInt32(b) && a != b
    ensures WorkerName(a) != WorkerName(b)
  {
    if WorkerName(a) == WorkerName(b) {
      assert WorkerName(a)[|NamePrefix|..] == JavaInteger.FormatInt(a);
      assert WorkerName(b)[|NamePrefix|..] == JavaInteger.FormatInt(b);
      JavaInteger.ParseFormat(a);
      JavaInteger.ParseFormat(b);
      assert false;
    }
  }

  /** What one pass of the `run` loop observes: the interrupt flag set at
      the loop head, or the outcome of `accept`. */
  datatype Event = InterruptSeen | Client | Timeout | SocketFailure | OtherFailure

  datatype ExitCause = Interrupted | SocketError | OtherError

  /** The registry after a run of loop passes, the workers started in them,
      and how the loop ended (`None` while it is still running). */
  datatype Looped = Looped(registry: Registry, started: seq<Worker>, exit: Option<ExitCause>)

  /** Number of passes before the loop ends: the index of the first event
      that is neither an accepted client nor a timeout. */
  function ExitIndex(events: seq<Event>): (n: nat)
    ensures n <= |events|
    ensures forall k :: 0 <= k < n ==> events[k] in {Client, Timeout}
    ensures n < |events| ==> events[n] !in {Client, Timeout}
  {
    if |events| == 0 || events[0] !in {Client, Timeout} then 0 else 1 + ExitIndex(events[1..])
  }

  function CountClients(events: seq<Event>): nat
  {
    if |events| == 0 then 0 else (if events[0] == Client then 1 else 0) + CountClients(events[1..])
  }

  /** `clientSequence` after `k` increments. */
  function Advance(n: int, k: nat): (m: int)
    requires InInt32(n)
    ensures InInt32(m)
    ensures n + k <= IntMax ==> m == n + k
  {
    if k == 0 then n else NextSequence(Advance(n, k - 1))
  }

  /** The `while (!currentThread().isInterrupted())` loop of `run`. An
      accepted client is appended as a started worker named from the
      sequence; a timeout changes nothing; the other outcomes end the loop.
      Nothing is ever removed from the list here. */
  function Loop(r: Registry, events: seq<Event>): (l: Looped)
    requires InInt32(r.sequence)
    ensures InInt32(l.registry.sequence)
    ensures l.registry.workers == r.workers + l.started
    ensures l.registry.serverOpen == r.serverOpen
    ensures l.registry.sequence == Advance(r.sequence, |l.started|)
    ensures l.started == Names(r.sequence, |l.started|)
    ensures |l.started| <= |events|
    ensures l.exit.None? <==> ExitIndex(events) == |events|
    ensures l.exit == Some(Interrupted) <==> ExitIndex(events) < |events| && events[ExitIndex(events)] == InterruptSeen
    ensures l.exit == Some(SocketError) <==> ExitIndex(events) < |events| && events[ExitIndex(events)] == SocketFailure
    decreases |events|
  {
    if |events| == 0 then Looped(r, [], None)
    else
      match events[0]
      case InterruptSeen => Looped(r, [], Some(Interrupted))
      case SocketFailure => Looped(r, [], Some(SocketError))
      case OtherFailure => Looped(r, [], Some(OtherError))
      case Timeout =>
        Loop(r, events[1..])
      case Client =>
        var w := Worker(r.sequence);
        var next := Registry(r.workers + [w], NextSequence(r.sequence), r.serverOpen);
        var l := Loop(next, events[1..]);
        AdvanceShift(r.sequence, |l.started|);
        Looped(l.registry, [w] + l.started, l.exit)
  }

  /** The `k` workers started from sequence value `n` on, in order. */
  function Names(n: int, k: nat): (ws: seq<Worker>)
    requires InInt32(n)
    ensures |ws| == k
    decreases k
  {
    if k == 0 then [] else [Worker(n)] + Names(NextSequence(n), k - 1)
  }

  /** The `j`-th of them is named from the sequence value advanced `j` times. */
  lemma {:induction false} NamesAt(n: int, k: nat, j: nat)
    requires InInt32(n) && j < k
    ensures Names(n, k)[j] == Worker(Advance(n, j))
    decreases j
  {
    if j > 0 {
      NamesAt(NextSequence(n), k - 1, j - 1);
      AdvanceShift(n, j - 1);
    }
  }

  /** The `j`-th worker a loop run starts is named from the sequence value
      advanced `j` times. */
  lemma LoopNamesWorkers(r: Registry, events: seq<Event>)
    requires InInt32(r.sequence)
    ensures var l := Loop(r, events);
            forall j :: 0 <= j < |l.started| ==> l.started[j] == Worker(Advance(r.sequence, j))
  {
    var l := Loop(r, events);
    forall j | 0 <= j < |l.started|
      ensures l.started[j] == Worker(Advance(r.sequence, j))
    {
      NamesAt(r.sequence, |l.started|, j);
    }
  }

  /** Each accepted client before the loop ends starts exactly one worker. */
  lemma {:induction false} LoopCountsClients(r: Registry, events: seq<Event>)
    requires InInt32(r.sequence)
    ensures |Loop(r, events).started| == CountClients(events[..ExitIndex(events)])
    decreases |events|
  {
    if |events| > 0 {
      var n := ExitIndex(events);
      if events[0] in {Client, Timeout} {
        assert events[..n] == [events[0]] + events[1..][..ExitIndex(events[1..])];
        assert (events[..n])[1..] == events[1..][..ExitIndex(events[1..])];
        if events[0] == Client {
          var w := Worker(r.sequence);
          LoopCountsClients(Registry(r.workers + [w], NextSequence(r.sequence), r.serverOpen), events[1..]);
        } else {
          LoopCountsClients(r, events[1..]);
        }
      } else {
        assert events[..n] == [];
      }
    } else {
      assert events[..ExitIndex(events)] == [];
    }
  }

  lemma {:induction false} AdvanceShift(n: int, k: nat)
    requires InInt32(n)
    ensures Advance(NextSequence(n), k) == Advance(n, k + 1)
  {
    if k > 0 {
      AdvanceShift(n, k - 1);
    }
  }

  /** The reports of killing `workers[k..]` in list order, and the killing
      thread's interrupt flag afterwards. `joins(j)` says what happens while
      waiting for the worker at list position `j`. */
  function KillFrom(workers: seq<Worker>, k: nat, callerInterrupted: bool, joins: nat -> JoinOracle): (r: (seq<KillReport>, bool))
    requires k <= |workers|
    ensures |r.0| == |workers| - k
    ensures forall j :: 0 <= j < |r.0| ==>
              && r.0[j].worker == workers[k + j]
              && (r.0[j].fate == ForceStopped <==> AliveAfterWait(joins(k + j)))
              && |r.0[j].actions| >= 3 && r.0[j].actions[..3] == [Interrupt(workers[k + j]), CloseSocket(workers[k + j]), Join(workers[k + j], JoinMillis)]
    ensures forall j :: 0 <= j < |r.0| ==>
              (RestoreInterrupt in r.0[j].actions <==>
                 joins(k + j).Running? && (callerInterrupted || exists i :: k <= i <= k + j && InterruptedDuringWait(joins(i))))
    ensures callerInterrupted ==> r.1 && forall j :: 0 <= j < |r.0| ==> (RestoreInterrupt in r.0[j].actions <==> joins(k + j).Running?)
    ensures r.1 <==> callerInterrupted || exists j :: k <= j < |workers| && InterruptedDuringWait(joins(j))
    decreases |workers| - k
  {
    if k == |workers| then ([], callerInterrupted)
    else
      var first := Kill(workers[k], callerInterrupted, joins(k));
      var rest := KillFrom(workers, k + 1, first.callerInterrupted, joins);
      ([first] + rest.0, rest.1)
  }

  /** `killAllClients()`: kill every registered worker in list order, then
      clear the list. */
  function KillAllClients(r: Registry, callerInterrupted: bool, joins: nat -> JoinOracle): (k: (Registry, seq<KillReport>, bool))
    ensures k.0 == r.(workers := [])
    ensures |k.1| == |r.workers|
    ensures forall j :: 0 <= j < |r.workers| ==>
              && k.1[j].worker == r.workers[j]
              && (k.1[j].fate == ForceStopped <==> AliveAfterWait(joins(j)))
              && |k.1[j].actions| >= 3 && k.1[j].actions[..3] == [Interrupt(r.workers[j]), CloseSocket(r.workers[j]), Join(r.workers[j], JoinMillis)]
    ensures callerInterrupted ==> forall j :: 0 <= j < |k.1| ==> (RestoreInterrupt in k.1[j].actions <==> joins(j).Running?)
    ensures !callerInterrupted && (forall j :: 0 <= j < |r.workers| ==> !InterruptedDuringWait(joins(j))) ==>
              forall j :: 0 <= j < |k.1| ==> RestoreInterrupt !in k.1[j].actions
    ensures k.2 <==> callerInterrupted || exists j :: 0 <= j < |r.workers| && InterruptedDuringWait(joins(j))
    ensures |r.workers| == 0 ==> k.1 == [] && k.2 == callerInterrupted
  {
    var (reports, flag) := KillFrom(r.workers, 0, callerInterrupted, joins);
    (r.(workers := []), reports, flag)
  }

  /** The outcome of `run`: the final registry, the workers started, the
      kill reports of the `finally` block, and how the loop ended (`None`
      when the events ran out with the loop still running). */
  datatype RunResult = RunResult(registry: Registry, started: seq<Worker>, kills: seq<KillReport>, exit: Option<ExitCause>)

  /** `run()`: the loop, then on any exit the `finally` block kills all
      clients and closes the server socket. An interrupt-caused exit leaves
      the acceptor thread's interrupt flag set while it kills, so the `join`
      on every worker still running throws at once; workers that already
      finished are joined without a wait. */
  function Run(r: Registry, events: seq<Event>, joins: nat -> JoinOracle): (res: RunResult)
    requires InInt32(r.sequence)
    ensures res.exit.Some? ==>
              && res.registry.workers == []
              && !res.registry.serverOpen
              && |res.kills| == |r.workers| + |res.started|
              && forall j :: 0 <= j < |res.kills| ==> res.kills[j].worker == (r.workers + res.started)[j]
    ensures res.exit.None? ==> res.kills == [] && res.registry.workers == r.workers + res.started
    ensures res.exit == Some(Interrupted) ==>
              forall j :: 0 <= j < |res.kills| ==> (RestoreInterrupt in res.kills[j].actions <==> joins(j).Running?)
  {
    var l := Loop(r, events);
    match l.exit
    case None => RunResult(l.registry, l.started, [], None)
    case Some(cause) =>
      var (cleared, reports, _) := KillAllClients(l.registry, cause == Interrupted, joins);
      var closed := cleared.(serverOpen := false);
      RunResult(closed, l.started, reports, l.exit)
  }

  /** A timeout changes nothing and the loop goes on; a client adds exactly
      one worker at the end of the list. */
  lemma AcceptStep(r: Registry, rest: seq<Event>)
    requires InInt32(r.sequence)
    ensures Loop(r, [Timeout] + rest) == Loop(r, rest)
    ensures Loop(r, [Client]).registry.workers == r.workers + [Worker(r.sequence)]
    ensures Loop(r, [Client]).exit.None?
  {
    assert ([Timeout] + rest)[1..] == rest;
  }

  /** Without wrap-around, workers are numbered consecutively from the
      sequence value the loop started with, so their names are distinct. */
  lemma {:induction false} StartedNamesIncrease(r: Registry, events: seq<Event>)
    requires InInt32(r.sequence)
    requires r.sequence + |events| <= IntMax
    ensures var l := Loop(r, events);
            && (forall j :: 0 <= j < |l.started| ==> l.started[j].sequence == r.sequence + j)
            && (forall i, j :: 0 <= i < j < |l.started| ==> ThreadName(l.started[i]) != ThreadName(l.started[j]))
  {
    var l := Loop(r, events);
    LoopNamesWorkers(r, events);
    forall i, j | 0 <= i < j < |l.started|
      ensures ThreadName(l.started[i]) != ThreadName(l.started[j])
    {
      WorkerNamesDistinct(l.started[i].sequence, l.started[j].sequence);
    }
  }
}
