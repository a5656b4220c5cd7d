/**
 * Switch provisioning at start-up: probe every managed switch, bring an
 * unreachable one from its factory address to its operational address with
 * a retried configuration script, and only then enable the host interfaces.
 *
 * The switches and the host's network interfaces are outside the model: what
 * they answer is an `Environment` given as a parameter, and what the
 * controller asks of them is recorded, in order, as a sequence of `Action`s.
 */
module Provisioning {

  import opened Wrappers
  import opened Net
  import opened RetryPolicy

  /** `configure` gives the whole script five attempts. */
  const Retries: int := 5

  const NoLogging: string := "no logging monitor|no logging buffer"
  const RstpMode: string := "spanning-tree|spanning-tree mode rstp"
  const Portfast: string := "spanning-tree|spanning-tree common-config portfast enable"
  const SaveConfig: string := "copy running-config startup-config"
  const Netmask: Addr := [255, 255, 255, 0]

  /** Every request the controller makes of a switch or of a host interface. */
  datatype Action =
    | UpOnly(iface: string, address: Addr)                     // the interface comes up with only this address
    | Probe(iface: string, address: Addr)                      // a probe with the driver's default timeouts
    | PatientProbe(iface: string, address: Addr)               // a probe with one-minute timeouts
    | Config(iface: string, session: Addr, command: string)    // a configuration-mode command
    | PortConfig(iface: string, session: Addr, port: nat, command: string)
    | ChangeIp(iface: string, from: Addr, vlan: nat, to: Addr, mask: Addr)
    | HostAddress(iface: string, address: Addr)                // the interface takes this address
    | Privileged(iface: string, session: Addr, command: string)
    | Up(iface: string, address: Addr)                         // the interface comes up with its host address

  /** The requests that change a switch's or an interface's configuration. */
  predicate Configures(a: Action)
  {
    a.Config? || a.PortConfig? || a.ChangeIp? || a.HostAddress? || a.Privileged?
  }

  /** How one attempt of the configuration script ends: it completes, or the
      request at index `step` (or the end of the script, when `step` is past it)
      throws `error` after the requests before it were made. */
  datatype Attempt = Completes | FailsAt(step: nat, error: string)

  /** What the switches answer: the outcome of a default probe, of a patient
      probe, and of the `k`-th configuration attempt on an interface. */
  datatype Environment = Environment(
    answers: (string, Addr) -> bool,
    patientAnswers: (string, Addr) -> bool,
    attempts: (string, nat) -> Attempt)

  /** Why `configureAllSwitches` throws. */
  datatype Abort =
    | CantConnect(iface: string)
    | ConfigureFailed(iface: string, error: Option<string>)

  /** The text thrown when neither address of a switch answers. */
  function CantConnectMessage(iface: string): (m: string)
    ensures |m| > |iface| && m[|m| - |iface|..] == iface
  {
    "Can't connect to the switch on port " + iface
  }

  /** The requests made and, when the run stops early, why. */
  datatype Step = Step(actions: seq<Action>, abort: Option<Abort>)

  // ---------------------------------------------------------------------------
  // One configuration attempt

  /** The requests of one complete attempt of `configure`, in order: the two
      session commands and one portfast command per port on the factory
      address, the address change, the host's new address, and saving the
      configuration through a session on the new address. */
  function ConfigureScript(iface: string, desired: Addr, default: Addr, ports: nat): seq<Action>
  {
    [Config(iface, default, NoLogging), Config(iface, default, RstpMode)]
    + seq(ports, (i: nat) => PortConfig(iface, default, i, Portfast))
    + [ChangeIp(iface, default, 0, desired, Netmask),
       HostAddress(iface, AddressEnd(desired, HostOctet)),
       Privileged(iface, desired, SaveConfig)]
  }

  lemma ScriptLayout(iface: string, desired: Addr, default: Addr, ports: nat)
    ensures var s := ConfigureScript(iface, desired, default, ports);
      && |s| == ports + 5
      && s[0] == Config(iface, default, NoLogging)
      && s[1] == Config(iface, default, RstpMode)
      && (forall i :: 0 <= i < ports ==> s[2 + i] == PortConfig(iface, default, i, Portfast))
      && s[ports + 2] == ChangeIp(iface, default, 0, desired, Netmask)
      && s[ports + 3] == HostAddress(iface, AddressEnd(desired, HostOctet))
      && s[ports + 4] == Privileged(iface, desired, SaveConfig)
      && (forall a :: a in s ==> Configures(a) && a.iface == iface)
  {
  }

  /** The session on the factory address: two commands, then the `for` loop over the ports. */
  method DefaultSession(iface: string, default: Addr, ports: nat) returns (s: seq<Action>)
    ensures |s| == ports + 2
    ensures s == ConfigureScript(iface, default, default, ports)[..ports + 2]
  {
    s := [Config(iface, default, NoLogging), Config(iface, default, RstpMode)];
    for i := 0 to ports
      invariant |s| == i + 2
      invariant s[0] == Config(iface, default, NoLogging) && s[1] == Config(iface, default, RstpMode)
      invariant forall j :: 0 <= j < i ==> s[2 + j] == PortConfig(iface, default, j, Portfast)
    {
      s := s + [PortConfig(iface, default, i, Portfast)];
    }
    ScriptLayout(iface, default, default, ports);
  }

  /** The attempt body of `configure`: the session on the factory address, then
      the address change, the host address and the save on the new address. */
  method Script(iface: string, desired: Addr, default: Addr, ports: nat) returns (s: seq<Action>)
    ensures s == ConfigureScript(iface, desired, default, ports)
  {
    var session := DefaultSession(iface, default, ports);
    s := session + [ChangeIp(iface, default, 0, desired, Netmask),
                    HostAddress(iface, AddressEnd(desired, HostOctet)),
                    Privileged(iface, desired, SaveConfig)];
  }

  /** The requests an attempt gets through before it ends. */
  function Issued(script: seq<Action>, a: Attempt): (r: seq<Action>)
    ensures r <= script
    ensures a.Completes? ==> r == script
  {
    if a.FailsAt? && a.step < |script| then script[..a.step] else script
  }

  /** An attempt seen by `retry`: it returns or throws its error. */
  function AttemptOutcome(a: Attempt): Outcome<(), string>
  {
    if a.Completes? then Ok(()) else Fail(a.error)
  }

  /** The callback `retry` calls on an interface, as a function of the attempt number. */
  function Outcomes(iface: string, attempts: (string, nat) -> Attempt): nat -> Outcome<(), string>
  {
    (k: nat) => AttemptOutcome(attempts(iface, k))
  }

  /** The requests of the first `n` attempts, one after another. */
  function AttemptsLog(script: seq<Action>, iface: string, attempts: (string, nat) -> Attempt, n: nat): seq<Action>
  {
    if n == 0 then [] else AttemptsLog(script, iface, attempts, n - 1) + Issued(script, attempts(iface, n - 1))
  }

  /** Every request of a run of attempts belongs to the script. */
  lemma {:induction false} AttemptsLogFromScript(script: seq<Action>, iface: string, attempts: (string, nat) -> Attempt, n: nat)
    ensures forall a :: a in AttemptsLog(script, iface, attempts, n) ==> a in script
  {
    if n > 0 {
      AttemptsLogFromScript(script, iface, attempts, n - 1);
      var before := AttemptsLog(script, iface, attempts, n - 1);
      var last := Issued(script, attempts(iface, n - 1));
      forall a | a in before + last
        ensures a in script
      {
        if a in last {
          var i :| 0 <= i < |last| && last[i] == a;
          assert script[i] == a;
        }
      }
    }
  }

  /** What `configure(iface, desired, default)` requests and how its `retry` ends. */
  datatype Configured = Configured(actions: seq<Action>, result: Retried<(), string>)

  /** `configure`: the script retried five times, the requests of the attempts made and the end of `retry`. */
  function Configuration(iface: string, desired: Addr, default: Addr, ports: nat,
                         attempts: (string, nat) -> Attempt): Configured
  {
    var outcomes := Outcomes(iface, attempts);
    Configured(AttemptsLog(ConfigureScript(iface, desired, default, ports), iface, attempts, Calls(Retries, outcomes)),
               RetryResult(Retries, outcomes))
  }

  /** `configure`: at most five attempts; it succeeds exactly when one of them
      completes, only the script's requests are made, a first attempt that
      completes makes the script once, and five failures throw the fifth error. */
  lemma ConfigurationRetries(iface: string, desired: Addr, default: Addr, ports: nat,
                             attempts: (string, nat) -> Attempt)
    ensures var c := Configuration(iface, desired, default, ports, attempts);
      && (c.result.Returned? <==> exists k: nat :: k < 5 && attempts(iface, k).Completes?)
      && (c.result.Threw? ==> c.result.error == Some(attempts(iface, 4).error))
      && (forall a :: a in c.actions ==> a in ConfigureScript(iface, desired, default, ports))
      && (attempts(iface, 0).Completes? ==> c.actions == ConfigureScript(iface, desired, default, ports))
  {
    var outcomes := Outcomes(iface, attempts);
    var script := ConfigureScript(iface, desired, default, ports);
    var c := Configuration(iface, desired, default, ports, attempts);
    AttemptsLogFromScript(script, iface, attempts, Calls(Retries, outcomes));
    if c.result.Returned? {
      var j: nat :| j < 5 && outcomes(j) == Ok(c.result.value);
      assert attempts(iface, j).Completes?;
    } else {
      assert forall k: nat :: k < 5 ==> outcomes(k).Fail?;
      assert forall k: nat :: k < 5 ==> !attempts(iface, k).Completes? by {
        forall k: nat | k < 5
          ensures !attempts(iface, k).Completes?
        {
          assert outcomes(k).Fail?;
        }
      }
    }
    if attempts(iface, 0).Completes? {
      assert outcomes(0).Ok?;
      assert Calls(Retries, outcomes) == 1;
      assert AttemptsLog(script, iface, attempts, 1) == [] + Issued(script, attempts(iface, 0));
    }
  }

  /** `configure`: the script is handed to `retry`, and what each attempt got
      through is requested in turn. */
  method Configure(iface: string, desired: Addr, default: Addr, ports: nat,
                   attempts: (string, nat) -> Attempt) returns (actions: seq<Action>, r: Retried<(), string>)
    ensures Configured(actions, r) == Configuration(iface, desired, default, ports, attempts)
  {
    var script := Script(iface, desired, default, ports);
    var calls;
    r, calls := Retry(Retries, Outcomes(iface, attempts));
    actions := AttemptsLog(script, iface, attempts, calls);
  }

  // ---------------------------------------------------------------------------
  // configureAllSwitches

  /** `probeSwitch`: bring the interface up on the address's subnet, then probe patiently. */
  function ProbeSwitch(iface: string, address: Addr): (r: seq<Action>)
    ensures |r| == 2 && r[1] == PatientProbe(iface, address)
    // the host first takes octet 200 of the switch's subnet, alone on the interface
    ensures r[0].UpOnly? && r[0].iface == iface && r[0].address[..3] == address[..3] && r[0].address[3] == HostOctet
    ensures forall a :: a in r ==> !a.Up? && !Configures(a)
  {
    [UpOnly(iface, AddressEnd(address, HostOctet)), PatientProbe(iface, address)]
  }

  /** One switch of `configureAllSwitches`: nothing more when it answers on its
      own address; otherwise the factory address is probed, and the switch is
      configured from there or the whole run stops. */
  function SwitchStep(sw: SwitchConfig, ports: nat, default: Addr, env: Environment): Step
  {
    var own := ProbeSwitch(sw.iface, sw.switchAddress);
    if env.patientAnswers(sw.iface, sw.switchAddress) then Step(own, None)
    else
      var factory := ProbeSwitch(sw.iface, default);
      if !env.patientAnswers(sw.iface, default) then Step(own + factory, Some(CantConnect(sw.iface)))
      else
        var c := Reconfigure(sw, ports, default, env);
        Step(own + factory + c.actions, c.abort)
  }

  /** `configure` on a switch found at the factory address; a throw of its `retry` stops the run. */
  function Reconfigure(sw: SwitchConfig, ports: nat, default: Addr, env: Environment): Step
  {
    var c := Configuration(sw.iface, sw.switchAddress, default, ports, env.attempts);
    Step(c.actions, if c.result.Returned? then None else Some(ConfigureFailed(sw.iface, c.result.error)))
  }

  /** The switches taken in order, stopping at the first that throws. */
  function Walk(switches: seq<SwitchConfig>, ports: nat, default: Addr, env: Environment): Step
  {
    if switches == [] then Step([], None)
    else
      var before := Walk(switches[..|switches| - 1], ports, default, env);
      if before.abort.Some? then before
      else
        var s := SwitchStep(switches[|switches| - 1], ports, default, env);
        Step(before.actions + s.actions, s.abort)
  }

  /** The closing `Promise.all`: every interface comes up on its host address. */
  function BringUp(switches: seq<SwitchConfig>): (r: seq<Action>)
    ensures |r| == |switches|
    ensures forall i :: 0 <= i < |switches| ==> r[i] == Up(switches[i].iface, switches[i].hostAddress)
  {
    seq(|switches|, i requires 0 <= i < |switches| => Up(switches[i].iface, switches[i].hostAddress))
  }

  /** `configureAllSwitches`: the walk, then the interfaces come up only if no switch threw. */
  function Provision(switches: seq<SwitchConfig>, ports: nat, default: Addr, env: Environment): Step
  {
    var w := Walk(switches, ports, default, env);
    if w.abort.None? then Step(w.actions + BringUp(switches), None) else w
  }

  /** Once a prefix of the switches has thrown, the later switches change nothing. */
  lemma {:induction false} WalkAborted(switches: seq<SwitchConfig>, k: nat, ports: nat, default: Addr, env: Environment)
    requires k <= |switches|
    requires Walk(switches[..k], ports, default, env).abort.Some?
    ensures Walk(switches, ports, default, env) == Walk(switches[..k], ports, default, env)
    decreases |switches|
  {
    if k < |switches| {
      var init := switches[..|switches| - 1];
      assert init[..k] == switches[..k];
      WalkAborted(init, k, ports, default, env);
    } else {
      assert switches[..k] == switches;
    }
  }

  /** `configure` only sends configuration requests, all on its own interface. */
  lemma ConfigurationConfigures(iface: string, desired: Addr, default: Addr, ports: nat,
                                attempts: (string, nat) -> Attempt)
    ensures forall a :: a in Configuration(iface, desired, default, ports, attempts).actions ==> Configures(a) && a.iface == iface
  {
    var script := ConfigureScript(iface, desired, default, ports);
    AttemptsLogFromScript(script, iface, attempts, Calls(Retries, Outcomes(iface, attempts)));
    ScriptLayout(iface, desired, default, ports);
  }

  /** One switch's requests never include `Up`, the host-address bring-up; a probe's `UpOnly` may. */
  lemma SwitchStepNoUp(sw: SwitchConfig, ports: nat, default: Addr, env: Environment)
    ensures forall a :: a in SwitchStep(sw, ports, default, env).actions ==> !a.Up?
  {
    var own := ProbeSwitch(sw.iface, sw.switchAddress);
    var factory := ProbeSwitch(sw.iface, default);
    ConfigurationConfigures(sw.iface, sw.switchAddress, default, ports, env.attempts);
    NoUpUnion(own + factory, Reconfigure(sw, ports, default, env).actions);
  }

  lemma NoUpUnion(a: seq<Action>, b: seq<Action>)
    requires forall x :: x in a ==> x.UpOnly? || x.PatientProbe?
    requires forall x :: x in b ==> Configures(x)
    ensures forall x :: x in a ==> !x.Up?
    ensures forall x :: x in a + b ==> !x.Up?
  {
  }

  /** A walk never includes `Up`; only the probes' `UpOnly`. */
  lemma {:induction false} WalkNoUp(switches: seq<SwitchConfig>, ports: nat, default: Addr, env: Environment)
    ensures forall a :: a in Walk(switches, ports, default, env).actions ==> !a.Up?
    decreases |switches|
  {
    if switches != [] {
      WalkNoUp(switches[..|switches| - 1], ports, default, env);
      SwitchStepNoUp(switches[|switches| - 1], ports, default, env);
    }
  }

  /** The walk over one more switch, when the switches before it all went through. */
  lemma WalkStep(switches: seq<SwitchConfig>, i: nat, ports: nat, default: Addr, env: Environment)
    requires i < |switches|
    requires Walk(switches[..i], ports, default, env).abort.None?
    ensures var s := SwitchStep(switches[i], ports, default, env);
      Walk(switches[..i + 1], ports, default, env) == Step(Walk(switches[..i], ports, default, env).actions + s.actions, s.abort)
  {
    assert switches[..i + 1][..i] == switches[..i];
  }

  /** `Up` is requested only when every switch was found or configured, and then for all of them, last. */
  lemma UpOnlyAfterSuccess(switches: seq<SwitchConfig>, ports: nat, default: Addr, env: Environment)
    ensures var p := Provision(switches, ports, default, env);
      && ((exists a :: a in p.actions && a.Up?) ==> p.abort.None?)
      && (p.abort.None? ==> |BringUp(switches)| <= |p.actions| && p.actions[|p.actions| - |switches|..] == BringUp(switches))
  {
    WalkNoUp(switches, ports, default, env);
    var w := Walk(switches, ports, default, env);
    if w.abort.None? {
      assert (w.actions + BringUp(switches))[|w.actions|..] == BringUp(switches);
    }
  }

  /** The patient probes of switches that all answer on their own addresses. */
  function ProbeAll(switches: seq<SwitchConfig>): seq<Action>
  {
    if switches == [] then []
    else
      var sw := switches[|switches| - 1];
      ProbeAll(switches[..|switches| - 1]) + ProbeSwitch(sw.iface, sw.switchAddress)
  }

  lemma {:induction false} ProbeAllNothingConfigured(switches: seq<SwitchConfig>)
    ensures forall a :: a in ProbeAll(switches) ==> !Configures(a) && !a.Up?
    decreases |switches|
  {
    if switches != [] {
      ProbeAllNothingConfigured(switches[..|switches| - 1]);
    }
  }

  lemma {:induction false} WalkAllAnswer(switches: seq<SwitchConfig>, ports: nat, default: Addr, env: Environment)
    requires forall sw :: sw in switches ==> env.patientAnswers(sw.iface, sw.switchAddress)
    ensures Walk(switches, ports, default, env) == Step(ProbeAll(switches), None)
    decreases |switches|
  {
    if switches != [] {
      var init := switches[..|switches| - 1];
      assert forall sw :: sw in init ==> sw in switches;
      WalkAllAnswer(init, ports, default, env);
      assert switches[|switches| - 1] in switches;
    }
  }

  /** A fleet whose switches all answer on their own addresses is never reconfigured:
      only probes are made, and then every interface comes up. */
  lemma AllAnswerNothingConfigured(switches: seq<SwitchConfig>, ports: nat, default: Addr, env: Environment)
    requires forall sw :: sw in switches ==> env.patientAnswers(sw.iface, sw.switchAddress)
    ensures Provision(switches, ports, default, env) == Step(ProbeAll(switches) + BringUp(switches), None)
    ensures forall a :: a in Provision(switches, ports, default, env).actions ==> !Configures(a)
  {
    WalkAllAnswer(switches, ports, default, env);
    ProbeAllNothingConfigured(switches);
  }

  /** A switch that answers on neither address stops the run with a message naming
      its interface: later switches are not probed and no `Up` is requested. */
  lemma AbortAtUnreachable(switches: seq<SwitchConfig>, k: nat, ports: nat, default: Addr, env: Environment)
    requires k < |switches|
    requires Walk(switches[..k], ports, default, env).abort.None?
    requires !env.patientAnswers(switches[k].iface, switches[k].switchAddress)
    requires !env.patientAnswers(switches[k].iface, default)
    ensures Provision(switches, ports, default, env) ==
      Step(Walk(switches[..k], ports, default, env).actions
             + ProbeSwitch(switches[k].iface, switches[k].switchAddress)
             + ProbeSwitch(switches[k].iface, default),
           Some(CantConnect(switches[k].iface)))
    ensures forall a :: a in Provision(switches, ports, default, env).actions ==> !a.Up?
  {
    var p := switches[..k + 1];
    assert p[..|p| - 1] == switches[..k];
    assert p[|p| - 1] == switches[k];
    WalkAborted(switches, k + 1, ports, default, env);
    WalkNoUp(switches, ports, default, env);
  }

  /** The body of `configureAllSwitches`' loop for one switch: probe its own address,
      then the factory address, then configure it; `abort` is what it throws. */
  method ProvisionSwitch(sw: SwitchConfig, ports: nat, default: Addr, env: Environment)
    returns (actions: seq<Action>, abort: Option<Abort>)
    ensures Step(actions, abort) == SwitchStep(sw, ports, default, env)
  {
    actions := ProbeSwitch(sw.iface, sw.switchAddress);
    abort := None;
    if !env.patientAnswers(sw.iface, sw.switchAddress) {
      actions := actions + ProbeSwitch(sw.iface, default);
      if !env.patientAnswers(sw.iface, default) {
        abort := Some(CantConnect(sw.iface));
        return;
      }
      var configured, r := Configure(sw.iface, sw.switchAddress, default, ports, env.attempts);
      actions := actions + configured;
      if r.Threw? {
        abort := Some(ConfigureFailed(sw.iface, r.error));
      }
    }
  }

  /** `configureAllSwitches`: the `for` loop with its early `throw`, then the final `Promise.all`. */
  method ConfigureAllSwitches(switches: seq<SwitchConfig>, ports: nat, default: Addr, env: Environment)
    returns (actions: seq<Action>, abort: Option<Abort>)
    ensures Step(actions, abort) == Provision(switches, ports, default, env)
  {
    actions := [];
    var i := 0;
    while i < |switches|
      invariant i <= |switches|
      invariant Walk(switches[..i], ports, default, env) == Step(actions, None)
    {
      WalkStep(switches, i, ports, default, env);
      var requested, thrown := ProvisionSwitch(switches[i], ports, default, env);
      actions := actions + requested;
      if thrown.Some? {
        abort := thrown;
        WalkAborted(switches, i + 1, ports, default, env);
        return;
      }
      i := i + 1;
    }
    assert switches[..i] == switches;
    actions := actions + BringUp(switches);
    abort := None;
  }

  // ---------------------------------------------------------------------------
  // The probe gate in `run`

  /** The default probes of `run`, in order, until one fails; the first failure
      runs `configureAllSwitches` over all switches and ends the loop. */
  function Gate(rest: seq<SwitchConfig>, all: seq<SwitchConfig>, ports: nat, default: Addr, env: Environment): Step
  {
    if rest == [] then Step([], None)
    else
      var probe := Probe(rest[0].iface, rest[0].switchAddress);
      var next := if env.answers(rest[0].iface, rest[0].switchAddress)
                  then Gate(rest[1..], all, ports, default, env)
                  else Provision(all, ports, default, env);
      Step([probe] + next.actions, next.abort)
  }

  /** The default probes of switches that all answer. */
  function Probes(switches: seq<SwitchConfig>): (r: seq<Action>)
    ensures |r| == |switches|
    ensures forall i :: 0 <= i < |switches| ==> r[i] == Probe(switches[i].iface, switches[i].switchAddress)
  {
    seq(|switches|, i requires 0 <= i < |switches| => Probe(switches[i].iface, switches[i].switchAddress))
  }

  /** When every switch answers the default probe, `run` only probes: nothing is
      configured and no `Up` is requested here. */
  lemma {:induction false} GateAllAnswer(rest: seq<SwitchConfig>, all: seq<SwitchConfig>, ports: nat, default: Addr, env: Environment)
    requires forall sw :: sw in rest ==> env.answers(sw.iface, sw.switchAddress)
    ensures Gate(rest, all, ports, default, env) == Step(Probes(rest), None)
    ensures forall a :: a in Gate(rest, all, ports, default, env).actions ==> a.Probe?
  {
    if rest != [] {
      assert rest[0] in rest;
      assert forall sw :: sw in rest[1..] ==> sw in rest;
      GateAllAnswer(rest[1..], all, ports, default, env);
      assert [Probe(rest[0].iface, rest[0].switchAddress)] + Probes(rest[1..]) == Probes(rest);
    }
  }

  /** The first switch that misses the default probe hands over to
      `configureAllSwitches`, which runs exactly once and whose end is the gate's end. */
  lemma {:induction false} GateFirstMiss(rest: seq<SwitchConfig>, all: seq<SwitchConfig>, k: nat, ports: nat, default: Addr, env: Environment)
    requires k < |rest|
    requires forall j :: 0 <= j < k ==> env.answers(rest[j].iface, rest[j].switchAddress)
    requires !env.answers(rest[k].iface, rest[k].switchAddress)
    ensures Gate(rest, all, ports, default, env) ==
      Step(Probes(rest[..k + 1]) + Provision(all, ports, default, env).actions, Provision(all, ports, default, env).abort)
  {
    var p := Provision(all, ports, default, env);
    if k == 0 {
      assert Probes(rest[..1]) == [Probe(rest[0].iface, rest[0].switchAddress)];
    } else {
      assert env.answers(rest[0].iface, rest[0].switchAddress);
      GateFirstMiss(rest[1..], all, k - 1, ports, default, env);
      assert [Probe(rest[0].iface, rest[0].switchAddress)] + Probes(rest[1..][..k]) == Probes(rest[..k + 1]);
      assert [Probe(rest[0].iface, rest[0].switchAddress)] + (Probes(rest[1..][..k]) + p.actions)
          == Probes(rest[..k + 1]) + p.actions;
    }
  }

  /** The gate from switch `i` on: its probe, then either the rest of the gate or provisioning. */
  lemma GateStep(switches: seq<SwitchConfig>, i: nat, ports: nat, default: Addr, env: Environment)
    requires i < |switches|
    ensures var next := if env.answers(switches[i].iface, switches[i].switchAddress)
                        then Gate(switches[i + 1..], switches, ports, default, env)
                        else Provision(switches, ports, default, env);
      Gate(switches[i..], switches, ports, default, env)
        == Step([Probe(switches[i].iface, switches[i].switchAddress)] + next.actions, next.abort)
  {
    assert switches[i..][1..] == switches[i + 1..];
  }

  /** The probe loop of `run`: probe each switch; on the first that does not
      answer, configure all switches and `break`. */
  method ProbeAndConfigure(switches: seq<SwitchConfig>, ports: nat, default: Addr, env: Environment)
    returns (actions: seq<Action>, abort: Option<Abort>)
    ensures Step(actions, abort) == Gate(switches, switches, ports, default, env)
  {
    actions := [];
    abort := None;
    var i := 0;
    while i < |switches|
      invariant i <= |switches|
      invariant Gate(switches, switches, ports, default, env)
             == Step(actions + Gate(switches[i..], switches, ports, default, env).actions,
                     Gate(switches[i..], switches, ports, default, env).abort)
    {
      var sw := switches[i];
      GateStep(switches, i, ports, default, env);
      ghost var before := actions;
      actions := actions + [Probe(sw.iface, sw.switchAddress)];
      if !env.answers(sw.iface, sw.switchAddress) {
        var more, a := ConfigureAllSwitches(switches, ports, default, env);
        AppendAssoc(before, [Probe(sw.iface, sw.switchAddress)], more);
        actions := actions + more;
        abort := a;
        return;
      }
      AppendAssoc(before, [Probe(sw.iface, sw.switchAddress)], Gate(switches[i + 1..], switches, ports, default, env).actions);
      i := i + 1;
    }
    assert actions + [] == actions;
  }
}
