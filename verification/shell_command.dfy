/** The objects a shell binding can hold. User-supplied objects are opaque
    references; the others are the ones the SSH command and the Spring bean
    put there themselves. */
module ShellObjects {

  datatype Obj =
    | Opaque(ref: nat)
    | BeanInstance(beanName: string)
    | AppContext
    | OutStream
    | ErrStream
    | ActiveSessions

  /** A binding map: variable name to object. */
  type Bindings = map<string, Obj>
}

/** The SSH shell command (`me.bazhenov.groovysh.GroovyShellCommand`): how it
    builds the shell's binding, guards writes to a closing channel, reacts to
    evaluator errors, loads default scripts and reports the exit code. The
    SSH server and the Groovysh shell are opaque: their states and outcomes
    are inputs. */
module GroovyShellCommand {
  import opened JavaPrims
  import opened ShellObjects
  import SshTerminal

  /** The names the command always binds itself. */
  const Reserved: set<string> := {"out", "err", "activeSessions"}

  /** `createBinding`: every user entry first, then `out`, `err` and
      `activeSessions`, which therefore replace user entries of those names.
      A `null` user map contributes nothing. */
  function CreateBinding(objects: Option<Bindings>): (b: Bindings)
    ensures objects.None? ==> b.Keys == Reserved
    ensures objects.Some? ==> b.Keys == objects.value.Keys + Reserved
    ensures b["out"] == OutStream && b["err"] == ErrStream && b["activeSessions"] == ActiveSessions
    ensures objects.Some? ==> forall k :: k in objects.value && k !in Reserved ==> b[k] == objects.value[k]
  {
    var user := if objects.Some? then objects.value else map[];
    user["out" := OutStream]["err" := ErrStream]["activeSessions" := ActiveSessions]
  }

  /** The four states `somethingBroken` reads. */
  datatype Liveness = Liveness(sessionClosed: bool, sessionClosing: bool, serverClosed: bool, serverClosing: bool)

  predicate SomethingBroken(l: Liveness) {
    l.sessionClosed || l.sessionClosing || l.serverClosed || l.serverClosing
  }

  /** One `write(int)` on the safe wrapper: forwarded to the channel stream,
      dropped after interrupting the shell thread, or, when the shell thread
      does not exist yet (`wrapper` is still `null`), the
      `NullPointerException` of `wrapper.interrupt()`. */
  datatype SafeEffect = Forwarded(b: int) | DroppedAndInterrupted | NullWrapper

  function SafeWrite(l: Liveness, threadExists: bool, b: int): (e: SafeEffect)
    ensures e.Forwarded? <==> !l.sessionClosed && !l.sessionClosing && !l.serverClosed && !l.serverClosing
    ensures e.Forwarded? ==> e.b == b
    ensures e.DroppedAndInterrupted? <==> SomethingBroken(l) && threadExists
    ensures e.NullWrapper? <==> SomethingBroken(l) && !threadExists
  {
    if !SomethingBroken(l) then Forwarded(b)
    else if threadExists then DroppedAndInterrupted
    else NullWrapper
  }

  /** The bytes of a series of writes that meet a healthy channel, in their
      order: the series filtered by the moment's liveness. */
  function HealthyBytes(ws: seq<(Liveness, int)>): (r: seq<int>)
    ensures |r| <= |ws|
  {
    if |ws| == 0 then []
    else
      var last := ws[|ws| - 1];
      HealthyBytes(ws[..|ws| - 1]) + (if SomethingBroken(last.0) then [] else [last.1])
  }

  /** The filter taken from the front: the first write, then the rest. */
  lemma {:induction false} HealthyBytesCons(ws: seq<(Liveness, int)>)
    requires |ws| > 0
    ensures HealthyBytes(ws) == (if SomethingBroken(ws[0].0) then [] else [ws[0].1]) + HealthyBytes(ws[1..])
    decreases |ws|
  {
    if |ws| > 1 {
      var init := ws[..|ws| - 1];
      HealthyBytesCons(init);
      assert init[1..] == ws[1..][..|ws[1..]| - 1];
      assert ws[1..][|ws[1..]| - 1] == ws[|ws| - 1];
    }
  }

  /** A series of writes made once the shell thread exists, each seeing the
      liveness of its own moment: the bytes that reach the channel and the
      number of interrupts sent. The wrapper overrides only `write(int)`:
      its `flush` and `close` are the inherited no-ops and reach nothing. */
  function SafeWrites(ws: seq<(Liveness, int)>): (r: (seq<int>, nat))
    ensures |r.0| + r.1 == |ws|
    ensures r.0 == HealthyBytes(ws) && r.1 == |ws| - |HealthyBytes(ws)|
    ensures (forall k :: 0 <= k < |ws| ==> SomethingBroken(ws[k].0)) ==> r.0 == [] && r.1 == |ws|
    ensures (forall k :: 0 <= k < |ws| ==> !SomethingBroken(ws[k].0)) ==>
              r.1 == 0 && forall k :: 0 <= k < |ws| ==> r.0[k] == ws[k].1
  {
    if |ws| == 0 then ([], 0)
    else
      var rest := SafeWrites(ws[1..]);
      HealthyBytesCons(ws);
      match SafeWrite(ws[0].0, true, ws[0].1)
      case Forwarded(b) => ([b] + rest.0, rest.1)
      case DroppedAndInterrupted => (rest.0, rest.1 + 1)
      case NullWrapper => assert false; rest
  }

  /** Filtering a series filters each part of it. */
  lemma {:induction false} HealthyBytesAppend(a: seq<(Liveness, int)>, b: seq<(Liveness, int)>)
    ensures HealthyBytes(a + b) == HealthyBytes(a) + HealthyBytes(b)
    decreases |b|
  {
    if |b| == 0 {
      assert a + b == a;
    } else {
      var ab := a + b;
      HealthyBytesAppend(a, b[..|b| - 1]);
      assert ab[..|ab| - 1] == a + b[..|b| - 1];
      assert ab[|ab| - 1] == b[|b| - 1];
    }
  }

  /** Output cut off midway: once the session or server breaks, every later
      byte is dropped with an interrupt, and exactly the bytes written
      before it reach the channel. */
  lemma {:induction false} OutputCutMidway(before: seq<(Liveness, int)>, after: seq<(Liveness, int)>)
    requires forall k :: 0 <= k < |before| ==> !SomethingBroken(before[k].0)
    requires forall k :: 0 <= k < |after| ==> SomethingBroken(after[k].0)
    ensures SafeWrites(before + after).0 == seq(|before|, k requires 0 <= k < |before| => before[k].1)
    ensures SafeWrites(before + after).1 == |after|
  {
    HealthyBytesAppend(before, after);
    AllHealthy(before);
    AllBroken(after);
  }

  /** A series that meets a healthy channel throughout forwards every byte. */
  lemma AllHealthy(ws: seq<(Liveness, int)>)
    requires forall k :: 0 <= k < |ws| ==> !SomethingBroken(ws[k].0)
    ensures HealthyBytes(ws) == seq(|ws|, k requires 0 <= k < |ws| => ws[k].1)
  {
    assert HealthyBytes(ws) == SafeWrites(ws).0;
  }

  /** A series that meets a broken channel throughout forwards nothing. */
  lemma AllBroken(ws: seq<(Liveness, int)>)
    requires forall k :: 0 <= k < |ws| ==> SomethingBroken(ws[k].0)
    ensures HealthyBytes(ws) == []
  {
    assert HealthyBytes(ws) == SafeWrites(ws).0;
  }

  /** What the error hook needs to know of its first argument: which
      classes it is an instance of. */
  datatype Failure = Failure(isInterruptedIO: bool, isSsh: bool)

  /** The error hook's effect: whether it stopped the shell's runner, and the
      arguments passed on to the default hook; `args[0]` of an empty
      argument array throws instead. */
  datatype HookEffect = Handled(stopRunner: bool, delegated: seq<Failure>) | NoArgument

  function ErrorHook(args: seq<Failure>): (e: HookEffect)
    ensures |args| == 0 <==> e.NoArgument?
    ensures e.Handled? ==> e.delegated == args
    ensures e.Handled? ==> (e.stopRunner <==> args[0].isInterruptedIO || args[0].isSsh)
  {
    if |args| == 0 then NoArgument
    else Handled(args[0].isInterruptedIO || args[0].isSsh, args)
  }

  /** The shell's result hook: the one it had, or the no-op installed while
      default scripts load. */
  datatype Hook = ShellHook(id: nat) | NoOpHook

  datatype ShellAction = SetResultHook(h: Hook) | LoadScript(script: string)

  /** An exception thrown by a `:load`: its class name and message. */
  datatype LoadError = LoadError(className: string, message: string)

  /** The calls made on the shell, the result hook it is left with, and the
      exception that escaped, if any. */
  datatype Loaded = Loaded(actions: seq<ShellAction>, hook: Hook, error: Option<LoadError>)

  /** The `for` loop over the scripts from index `k`; `loadFails(j)` says
      whether the `:load` of the `j`-th script throws. */
  function LoadFrom(scripts: seq<string>, k: nat, loadFails: nat -> Option<LoadError>): (r: (seq<ShellAction>, Option<LoadError>))
    requires k <= |scripts|
    ensures |r.0| <= |scripts| - k
    ensures forall j :: 0 <= j < |r.0| ==> r.0[j] == LoadScript(scripts[k + j])
    ensures r.1.None? ==> |r.0| == |scripts| - k && forall j :: k <= j < |scripts| ==> loadFails(j).None?
    ensures r.1.Some? ==>
              && 0 < |r.0|
              && r.1 == loadFails(k + |r.0| - 1)
              && forall j :: k <= j < k + |r.0| - 1 ==> loadFails(j).None?
    decreases |scripts| - k
  {
    if k == |scripts| then ([], None)
    else if loadFails(k).Some? then ([LoadScript(scripts[k])], loadFails(k))
    else
      var rest := LoadFrom(scripts, k + 1, loadFails);
      ([LoadScript(scripts[k])] + rest.0, rest.1)
  }

  /** `loadDefaultScripts`: with a non-empty list, install the no-op result
      hook, `:load` each script in order, and restore the original hook in
      the `finally` block, failure or not. An empty list touches nothing. */
  function LoadDefaultScripts(scripts: seq<string>, original: Hook, loadFails: nat -> Option<LoadError>): (l: Loaded)
    ensures l.hook == original
    ensures |scripts| == 0 ==> l == Loaded([], original, None)
    ensures |scripts| > 0 ==>
              && 3 <= |l.actions| <= |scripts| + 2
              && l.actions[0] == SetResultHook(NoOpHook)
              && l.actions[|l.actions| - 1] == SetResultHook(original)
              && (forall j :: 1 <= j < |l.actions| - 1 ==> l.actions[j] == LoadScript(scripts[j - 1]))
              && (l.error.None? <==> |l.actions| == |scripts| + 2 && forall j :: 0 <= j < |scripts| ==> loadFails(j).None?)
  {
    if |scripts| == 0 then Loaded([], original, None)
    else
      var (loads, error) := LoadFrom(scripts, 0, loadFails);
      Loaded([SetResultHook(NoOpHook)] + loads + [SetResultHook(original)], original, error)
  }

  /** How `shell.run("")` ends on the shell thread. */
  datatype RunEnd = NormalReturn | RuntimeExceptionThrown(message: Option<string>) | ErrorThrown(message: Option<string>)

  /** The exit callback: `onExit(code)` or `onExit(code, message)`. */
  datatype ExitCall = OnExit(code: int) | OnExitWithMessage(code: int, message: Option<string>)

  /** What `start` leaves behind: the line printed on `err` if loading the
      default scripts failed, the shell's result hook, whether the shell
      thread was started, and, once it ends, the environment it registered
      for the terminal and the exit callback made. A `start` that throws
      starts no thread and makes no callback. */
  datatype Started = Started(errLine: Option<string>, hook: Hook, threadStarted: bool,
                             terminalEnv: Option<SshTerminal.Variables>, exit: Option<ExitCall>)

  function LoadFailureLine(e: LoadError): string
  {
    "Unable to load default scripts: " + e.className + ": " + e.message
  }

  /** `start(env)`, with the shell thread run to its end. A script failure
      is reported on `err`; `reportLiveness` is the channel state that
      report meets. The report goes through the safe wrapper before
      `wrapper` is assigned, so on a broken channel its first byte raises
      the `NullPointerException` of `wrapper.interrupt()`, which escapes
      `start` before the thread is created. Otherwise the thread starts,
      registers the session environment, runs the shell, and reports 0 on a
      normal return, -1 with the message on a `RuntimeException` or
      `Error`. */
  function Start(env: SshTerminal.Variables, scripts: seq<string>, original: Hook,
                 loadFails: nat -> Option<LoadError>, reportLiveness: Liveness, runEnd: RunEnd): (s: Started)
    ensures s.hook == original
    ensures s.threadStarted <==> (forall j :: 0 <= j < |scripts| ==> loadFails(j).None?) || !SomethingBroken(reportLiveness)
    ensures s.errLine.Some? <==> (exists j :: 0 <= j < |scripts| && loadFails(j).Some?) && !SomethingBroken(reportLiveness)
    ensures s.errLine.Some? ==>
              exists j :: 0 <= j < |scripts| && loadFails(j).Some? && s.errLine == Some(LoadFailureLine(loadFails(j).value))
                          && forall i :: 0 <= i < j ==> loadFails(i).None?
    ensures s.threadStarted <==> s.terminalEnv == Some(env)
    ensures !s.threadStarted <==> s.terminalEnv.None? && s.exit.None?
    ensures s.threadStarted ==> (runEnd.NormalReturn? <==> s.exit == Some(OnExit(0)))
    ensures s.threadStarted && !runEnd.NormalReturn? ==> s.exit == Some(OnExitWithMessage(-1, runEnd.message))
  {
    var loaded := LoadDefaultScripts(scripts, original, loadFails);
    var exit := match runEnd
      case NormalReturn => OnExit(0)
      case RuntimeExceptionThrown(m) => OnExitWithMessage(-1, m)
      case ErrorThrown(m) => OnExitWithMessage(-1, m);
    match loaded.error
    case None => Started(None, loaded.hook, true, Some(env), Some(exit))
    case Some(e) =>
      var line := LoadFailureLine(e);
      match SafeWrite(reportLiveness, false, line[0] as int)
      case NullWrapper => Started(None, loaded.hook, false, None, None)
      case _ => Started(Some(line), loaded.hook, true, Some(env), Some(exit))
  }

  /** On the shell thread the terminal size never fails: the environment is
      registered before the shell runs. */
  lemma ShellThreadHasTerminalSize(env: SshTerminal.Variables, scripts: seq<string>, original: Hook,
                                   loadFails: nat -> Option<LoadError>, reportLiveness: Liveness, runEnd: RunEnd)
    ensures var s := Start(env, scripts, original, loadFails, reportLiveness, runEnd);
            s.threadStarted ==>
              && SshTerminal.GetWidth(s.terminalEnv).Size?
              && SshTerminal.GetHeight(s.terminalEnv).Size?
  {
  }
}
