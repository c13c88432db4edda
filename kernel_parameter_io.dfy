/**
 * KernelParameterIO: reads and writes kernel tunables through a root shell.
 *
 * The RootTools library is not modelled; each call receives its answers as
 * an oracle value (`RootShell`): whether root is available, whether access
 * was granted, and what the command printed before it exited or threw.
 * What is modelled is the object's own state (the shell handle and the
 * `cmdReturn` field shared by reads and writes), the rules that turn the
 * oracle's answers into a result, and the class-wide singleton slot.
 */
module KernelParameterIO {
  import opened JavaLang

  /** What the shell did with one command: the lines it printed, then an exit code or an exception. */
  datatype CommandRun = Exited(output: seq<string>, exitCode: int) | Threw(output: seq<string>)

  /** The root library's answers for one read or write. */
  datatype RootShell = RootShell(rootAvailable: bool, accessGiven: bool, run: CommandRun)

  /** A call made on the store, with the path and (for writes) the text handed to it. */
  datatype Request = Read(path: string) | Write(path: string, value: string)

  /** The result of one store call together with the value `cmdReturn` holds afterwards. */
  datatype StoreStep<T> = StoreStep(result: T, cmdReturn: Option<string>)

  predicate ExitedZero(run: CommandRun) {
    run.Exited? && run.exitCode == 0
  }

  /**
   * The value of `cmdReturn` after the output callback has been invoked once
   * per printed line, starting from `previous`: the last line wins, and a
   * command that prints nothing leaves the old value in place.
   */
  function Captured(previous: Option<string>, lines: seq<string>): (c: Option<string>)
    ensures lines == [] ==> c == previous
    ensures lines != [] ==> c == Some(lines[|lines| - 1])
    decreases lines
  {
    if lines == [] then previous else Captured(Some(lines[0]), lines[1..])
  }

  /** The decision `readSysFs` takes, given the value of `cmdReturn` before the call. */
  function ReadRule(cmdReturn: Option<string>, shell: RootShell): (s: StoreStep<Option<string>>)
    // a read yields nothing, or exactly what cmdReturn holds afterwards
    ensures s.result == None || s.result == s.cmdReturn
    // without root the stale value is returned and nothing is captured
    ensures !shell.rootAvailable ==> s.result == cmdReturn && s.cmdReturn == cmdReturn
    ensures shell.rootAvailable && !shell.accessGiven ==> s.result == None && s.cmdReturn == cmdReturn
    // with root and access, the printed lines are captured whatever the outcome
    ensures shell.rootAvailable && shell.accessGiven ==> s.cmdReturn == Captured(cmdReturn, shell.run.output)
    // with root and access, a read yields a value exactly when the command
    // exited 0 and cmdReturn is non-null afterwards
    ensures shell.rootAvailable && shell.accessGiven ==> (s.result == None <==> !ExitedZero(shell.run) || s.cmdReturn == None)
    ensures shell.rootAvailable && ExitedZero(shell.run) && shell.run.output != [] && shell.accessGiven ==>
      s.result == Some(shell.run.output[|shell.run.output| - 1])
  {
    if shell.rootAvailable then
      if shell.accessGiven then
        var captured := Captured(cmdReturn, shell.run.output);
        if !ExitedZero(shell.run) then StoreStep(None, captured) else StoreStep(captured, captured)
      else StoreStep(None, cmdReturn)
    else StoreStep(cmdReturn, cmdReturn)
  }

  /**
   * The decision `writeSysFs` takes: success is read off `cmdReturn` after
   * the command, whatever happened to root, access, the exit code or an
   * exception; a `null` there throws NullPointerException.
   */
  function WriteRule(cmdReturn: Option<string>, shell: RootShell): (s: StoreStep<Result<bool>>)
    ensures s.result == Ok(true) <==> s.cmdReturn == Some("0")
    ensures s.result == Err(NullPointer) <==> s.cmdReturn == None
    ensures s.result.Ok? || s.result == Err(NullPointer)
    ensures !(shell.rootAvailable && shell.accessGiven) ==> s.cmdReturn == cmdReturn
    ensures shell.rootAvailable && shell.accessGiven ==> s.cmdReturn == Captured(cmdReturn, shell.run.output)
  {
    var captured := if shell.rootAvailable && shell.accessGiven then Captured(cmdReturn, shell.run.output) else cmdReturn;
    match captured
    case None => StoreStep(Err(NullPointer), captured)
    case Some(line) => StoreStep(Ok(line == "0"), captured)
  }

  /** Two root writes that print the same lines end the same way, whatever their exit status. */
  lemma WriteIgnoresExitStatus(cmdReturn: Option<string>, a: RootShell, b: RootShell)
    requires a.rootAvailable && a.accessGiven && b.rootAvailable && b.accessGiven
    requires a.run.output == b.run.output
    ensures WriteRule(cmdReturn, a) == WriteRule(cmdReturn, b)
  {
  }

  /**
   * A write whose command prints nothing reports what the previous read
   * left behind: success exactly when that read returned "0".
   */
  lemma SilentWriteReportsLastRead(cmdReturn: Option<string>, read: RootShell, write: RootShell, value: string)
    requires ReadRule(cmdReturn, read).result == Some(value)
    requires write.run.output == []
    ensures WriteRule(ReadRule(cmdReturn, read).cmdReturn, write) == StoreStep(Ok(value == "0"), Some(value))
  {
  }

  /** A KernelParameterIO object. */
  class ParameterStore {
    /** Whether RootTools handed out a shell when the object was built. */
    var hasShell: bool
    /** The last output line any command of this object printed (`null` before the first). */
    var cmdReturn: Option<string>
    /** Every call made on this object, in order. */
    ghost var requests: seq<Request>

    constructor (shellObtained: bool)
      ensures hasShell == shellObtained && cmdReturn == None && requests == []
    {
      hasShell := shellObtained;
      cmdReturn := None;
      requests := [];
    }

    method ReadSysFs(path: string, shell: RootShell) returns (r: Option<string>)
      modifies this`cmdReturn, this`requests
      ensures var s := ReadRule(old(cmdReturn), shell); r == s.result && cmdReturn == s.cmdReturn
      ensures requests == old(requests) + [Read(path)]
    {
      requests := requests + [Read(path)];
      if shell.rootAvailable {
        if shell.accessGiven {
          cmdReturn := Captured(cmdReturn, shell.run.output);
          if shell.run.Threw? || shell.run.exitCode != 0 {
            return None;
          }
        } else {
          return None;
        }
      }
      r := cmdReturn;
    }

    method WriteSysFs(path: string, value: string, shell: RootShell) returns (r: Result<bool>)
      modifies this`cmdReturn, this`requests
      ensures var s := WriteRule(old(cmdReturn), shell); r == s.result && cmdReturn == s.cmdReturn
      ensures requests == old(requests) + [Write(path, value)]
    {
      requests := requests + [Write(path, value)];
      if shell.rootAvailable && shell.accessGiven {
        cmdReturn := Captured(cmdReturn, shell.run.output);
      }
      if cmdReturn == None {
        return Err(NullPointer);
      }
      r := Ok(cmdReturn.value == "0");
    }

    /** Closes the shell (not modelled) and empties the singleton slot. */
    method Release(registry: Registry)
      modifies registry
      ensures registry.instance == null
    {
      registry.instance := null;
    }
  }

  /** The class-wide `instance` slot of KernelParameterIO. */
  class Registry {
    var instance: ParameterStore?

    /** Only an object that obtained a shell is ever cached. */
    ghost predicate Valid()
      reads this, instance
    {
      instance != null ==> instance.hasShell
    }

    constructor ()
      ensures instance == null && Valid()
    {
      instance := null;
    }

    method GetInstance(shellObtained: bool) returns (r: ParameterStore?)
      requires Valid()
      modifies this
      ensures Valid() && r == instance
      ensures old(instance) != null ==> r == old(instance)
      ensures old(instance) == null && !shellObtained ==> r == null
      ensures old(instance) == null && shellObtained ==>
        r != null && fresh(r) && r.hasShell && r.cmdReturn == None && r.requests == []
    {
      if instance == null {
        instance := new ParameterStore(shellObtained);
        if !instance.hasShell {
          instance := null;
        }
      }
      r := instance;
    }
  }

  /** After a release, the next acquisition builds a new object rather than reusing the released one. */
  method ReacquireAfterRelease(registry: Registry, store: ParameterStore, shellObtained: bool)
    returns (next: ParameterStore?)
    modifies registry
    ensures next != store
    ensures next != null ==> fresh(next) && next.cmdReturn == None
    ensures next == null <==> !shellObtained
  {
    store.Release(registry);
    next := registry.GetInstance(shellObtained);
  }
}
