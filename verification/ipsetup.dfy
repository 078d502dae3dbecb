/** `setup_ip` (src/sysconfig/linux.rs): three `ip` invocations against the TUN
    device, in order, stopping at the first one that cannot be spawned or exits
    unsuccessfully. The process runner is a parameter and the invocations issued
    are returned as a trace. */
module IpSetup {
  import opened Wrappers
  import opened Net

  /** One external command: the program and its argument vector. */
  datatype Invocation = Invocation(program: string, args: seq<string>)

  /** What `Command::output` captures: exit status, standard output and error. */
  datatype Output = Output(success: bool, stdout: seq<bv8>, stderr: seq<bv8>)

  /** The process runner. It sees the invocations issued so far, so it can stand
      for a system whose state earlier commands changed; `None` means the process
      could not be spawned. */
  type Executor = (seq<Invocation>, Invocation) -> Option<Output>

  /** Why setup stopped, with the index of the step (0, 1 or 2) that failed. */
  datatype SetupError =
    | SpawnFailed(step: nat)
    | CommandFailed(step: nat, stdout: seq<bv8>, stderr: seq<bv8>)

  /** The step ran and reported success. */
  predicate Succeeded(exec: Executor, trace: seq<Invocation>, k: nat)
    requires k < |trace|
  {
    var out := exec(trace[..k], trace[k]);
    out.Some? && out.value.success
  }

  /** Runs `steps` in order and stops at the first failing one. The trace is the
      steps issued; every step before the last one issued succeeded; the run passes
      exactly when all steps were issued and the last one succeeded too. A failure
      names the failing step and carries its captured output. */
  method RunFailFast(exec: Executor, steps: seq<Invocation>)
    returns (trace: seq<Invocation>, outcome: Outcome<SetupError>)
    ensures |trace| <= |steps| && trace == steps[..|trace|]
    ensures 0 < |steps| ==> 0 < |trace|
    ensures forall k | 0 <= k < |trace| - 1 :: Succeeded(exec, trace, k)
    ensures outcome.Pass? <==> trace == steps && forall k | 0 <= k < |trace| :: Succeeded(exec, trace, k)
    ensures outcome.Fail? ==>
              && 0 < |trace| && outcome.error.step == |trace| - 1
              && !Succeeded(exec, trace, |trace| - 1)
    ensures outcome.Fail? && outcome.error.SpawnFailed? ==>
              exec(trace[..|trace| - 1], trace[|trace| - 1]).None?
    ensures outcome.Fail? && outcome.error.CommandFailed? ==>
              exec(trace[..|trace| - 1], trace[|trace| - 1])
              == Some(Output(false, outcome.error.stdout, outcome.error.stderr))
  {
    trace := [];
    var i := 0;
    while i < |steps|
      invariant 0 <= i <= |steps|
      invariant trace == steps[..i]
      invariant forall k | 0 <= k < i :: Succeeded(exec, trace, k)
    {
      var out := exec(trace, steps[i]);
      var issued := trace + [steps[i]];
      assert issued[..i] == trace && issued[i] == steps[i];
      forall k | 0 <= k < i
        ensures Succeeded(exec, issued, k)
      {
        assert Succeeded(exec, trace, k);
        assert issued[..k] == trace[..k] && issued[k] == trace[k];
      }
      trace := issued;
      assert Succeeded(exec, trace, i) <==> out.Some? && out.value.success;
      if out.None? {
        return trace, Fail(SpawnFailed(i));
      }
      if !out.value.success {
        return trace, Fail(CommandFailed(i, out.value.stdout, out.value.stderr));
      }
      i := i + 1;
    }
    return trace, Pass;
  }

  /** The three commands `setup_ip` issues: set the address, bring the link up, add
      the route, each naming the device. */
  function SetupCommands(tunName: string, ip: IpAddress, cidr: IpCidr): (cmds: seq<Invocation>)
    ensures |cmds| == 3
    ensures forall k | 0 <= k < 3 :: cmds[k].program == "ip" && tunName in cmds[k].args
  {
    [ Invocation("ip", ["addr", "replace", AddressToString(ip), "dev", tunName]),
      Invocation("ip", ["link", "set", tunName, "up"]),
      Invocation("ip", ["route", "add", CidrToString(cidr), "dev", tunName]) ]
  }

  /** `setup_ip`: at most the three commands, in order, as a prefix; all three and a
      normal return when each succeeds; otherwise the first failing step ends the
      run and nothing after it is issued. */
  method SetupIp(exec: Executor, tunName: string, ip: IpAddress, cidr: IpCidr)
    returns (trace: seq<Invocation>, outcome: Outcome<SetupError>)
    ensures 1 <= |trace| <= 3
    ensures trace[0] == Invocation("ip", ["addr", "replace", AddressToString(ip), "dev", tunName])
    ensures |trace| >= 2 ==> trace[1] == Invocation("ip", ["link", "set", tunName, "up"])
    ensures |trace| == 3 ==> trace[2] == Invocation("ip", ["route", "add", CidrToString(cidr), "dev", tunName])
    ensures outcome.Pass? <==> |trace| == 3 && Succeeded(exec, trace, 0)
                               && Succeeded(exec, trace, 1) && Succeeded(exec, trace, 2)
    ensures outcome.Fail? ==> outcome.error.step == |trace| - 1 && !Succeeded(exec, trace, |trace| - 1)
    ensures |trace| >= 2 ==> Succeeded(exec, trace, 0)
    ensures |trace| == 3 ==> Succeeded(exec, trace, 1)
    ensures outcome.Fail? && outcome.error.SpawnFailed? ==>
              exec(trace[..|trace| - 1], trace[|trace| - 1]).None?
    ensures outcome.Fail? && outcome.error.CommandFailed? ==>
              exec(trace[..|trace| - 1], trace[|trace| - 1])
              == Some(Output(false, outcome.error.stdout, outcome.error.stderr))
  {
    var cmds := SetupCommands(tunName, ip, cidr);
    trace, outcome := RunFailFast(exec, cmds);
  }
}
