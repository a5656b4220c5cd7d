# Camera-fleet controller: a verified model of the control logic

The controller (`controller/app/index.js`) watches a fleet of PoE cameras attached to managed
switches. It keeps an in-memory table of cameras keyed by MAC address and does four things:

- **Heartbeat handling.** It hears each camera's reply to a multicast ping, then creates,
  recovers or refreshes the camera's record.
- **Topology mapping.** Once per loop iteration it reads every switch's port-to-MAC table and
  records which interface, switch and port each camera hangs off.
- **Liveness and recovery.**
  - A camera that has not replied for 10 s goes offline.
  - A located camera is power-cycled through its port, at most once per 60 s.
  - At most once per 60 s, every switch port that no camera claims is power-cycled too.
- **Provisioning at start-up.** If a switch does not answer on its operational address, it is
  reconfigured from its factory address. A retried script does this: it sets RSTP and portfast,
  moves the management address, and saves the startup configuration. Only when every switch
  is in place do the host's interfaces come up on their host addresses (`interfaces.up`); each
  probe first brings its interface up alone on the switch's subnet (`interfaces.upOnly`).

The model is in Dafny, in six modules:

- `Wrappers` (`net.dfy`): `Option`, and the associativity of sequence concatenation.
- `Net` (`net.dfy`):
  - octets and IPv4 addresses as four bytes;
  - `addressEnd`;
  - the one-byte multicast commands;
  - the MAC key of a heartbeat reply;
  - a switch's static description.
- `RetryPolicy` (`retry.dfy`): `retry`, as a method with a counting loop. It is proved against
  the functions `Calls` and `RetryResult`.
- `Cameras` (`cameras.dfy`): the camera record and the calls the controller makes. What each
  step does is a pure specification function returning the new table and the calls in issue
  order. These functions are `Heartbeat`, `LinkTable`/`Topology`, `Liveness`, `Sweep` and
  `Loop`. The lemmas state what the source promises about them.
- `Controller` (`controller.dfy`): the class `Fleet`, the controller's mutable state.
  - The `cameras` map.
  - Its key insertion order, which JavaScript's `for ... in` walks for keys that are not array
    indices, as 17-character MACs never are.
  - The global `lastReboot`.
  - An append-only `log` of registry and switch calls.
  - A ghost `clock`, the time of the latest heartbeat or iteration. While calls come in time
    order, every offline camera has gone unheard for more than 10 s at `clock` (`Settled`). So
    after an iteration that maps every switch, a camera is online exactly when it was heard from
    within 10 s.
  Its methods carry the source's loops. Each method is proved to leave the state and the log
  that the matching specification function describes.
- `Provisioning` (`provisioning.dfy`):
  - `configure`, `configureAllSwitches` and the probe gate in `run`, as methods with loops and
    an early exit;
  - the switches' answers as an `Environment` parameter;
  - the requests made, as a sequence of `Action`s.

The outside world is an input:

- The time `now`.
- The port tables the switches return, where `None` means the session failed.
- Whether each switch's session of the orphan sweep opens.
- Whether a power-cycle succeeds.
  - A camera's own `PowerCycle` (index.js:172-175) stands for the session opened for it plus
    `powerCycle`, and its success is the success of both.
  - A sweep `PowerCycle` (index.js:196) is `device.powerCycle` alone, inside its switch's shared
    session. Its success is that of the power-cycle alone, and the session is the separate input
    above.
- Probe answers.
- How each configuration attempt ends.

The registry (`cameraService.create`/`patch`), the switch driver and the host's interfaces are
recorded as calls, not modelled.

The model fixes one reading of the timing: timestamps are integer milliseconds.

- "Not seen" is `now - lastSeen > 10000`.
- "Not rebooted" is `now - lastReboot > 60000`.
- An absent timestamp or `0` counts as never, the JavaScript falsy reading.
- All calls of one iteration see the same `now`.

Where the design text and the code differ, the model follows the code:

- **A failed task ends the loop.** The design says a failed per-camera recovery does not affect
  the others. In the code, a rejected power-cycle rejects `Promise.all(tasks)` (index.js:181) and
  so the whole `loop()`. `run`'s `catch` (index.js:289) then ends the main loop. The model
  reports this as `ok == false`, the sweep that would follow is not run, and `Fleet.Iterate`
  returns at once.
- **A port claimed on another switch.** The orphan sweep treats a port as claimed when a camera
  has the same interface and port. The switch address is not compared (index.js:194).
- **Port 0.** A camera on port 0 is never power-cycled on its own, because the port is tested for
  truthiness (index.js:167).
- **A sweep session that fails.** Every configured switch gets a sweep session, even one with
  no orphan port (index.js:189). If one fails, that switch is not power-cycled, the sweep
  rejects, and the global `lastReboot` is not stamped (index.js:202-203).
- **When `lastReboot` is set.** A camera's `lastReboot` is stamped only after its power-cycle
  returns (index.js:173-174).

## Model

| member | source | states |
|---|---|---|
| Net.AddressEnd | controller/app/index.js:63 | keeps the first three octets of the address and makes the fourth `end` |
| Net.AddressEndAgrees | controller/app/index.js:63 | two addresses map to the same replacement exactly when their first three octets agree |
| Net.AddressEndOverrides | controller/app/index.js:63 | replacing the last octet twice keeps only the second replacement |
| Net.Payload | controller/app/index.js:16-20 | the datagram of a command is one byte, and a camera decodes it back to the same command |
| Net.PayloadBytes | controller/app/index.js:22-25 | ping is `[0]`, shoot is `[1]`, and different commands never share a datagram |
| Net.MacOf | controller/app/index.js:38 | the key is the first 17 bytes, or fewer for a shorter message, each with its high bit cleared |
| Net.MacRoundTrip | controller/app/index.js:38 | a reply starting with a 17-character ASCII MAC is keyed by exactly that MAC, whatever follows |
| RetryPolicy.Calls | controller/app/index.js:207-220 | never more calls than the budget; every call before the last failed; fewer calls than the budget means the last one succeeded; a positive budget makes at least one call |
| RetryPolicy.RetryResult | controller/app/index.js:207-220 | a returned value is some attempt's success; a throw means every attempt within the budget failed, and it throws the last attempt's error, or `undefined` for a budget of zero or less |
| RetryPolicy.Retry | controller/app/index.js:207-220 | the loop makes `Calls` calls and returns `RetryResult`; it returns iff some attempt within the budget succeeds; on success the value is that of the last call; on a throw it made exactly the budgeted number of calls |
| Cameras.Discovered | controller/app/index.js:42 | a new record is online, has the reply's address and `lastSeen == now`, and has no topology and no reboot stamp |
| Cameras.Heartbeat | controller/app/index.js:36-51 | the key is added; the record is online with the new address and `lastSeen == now`; other records are untouched; an unknown MAC gets a new record and exactly one `create`; a known MAC keeps its interface, switch, port and `lastReboot`; exactly one recovery patch is sent iff the address changed or the camera was offline, otherwise no call |
| Cameras.LinkTable | controller/app/index.js:130-140 | the walk over one switch's port table; its properties are those of `LinkTableEffect` below |
| Cameras.LinkRow | controller/app/index.js:131-140 | an unknown MAC changes nothing; a known one ends attached to the reporting interface, switch and port with its status kept; a patch is issued exactly when the record changes, and it carries the new attachment |
| Cameras.LinkTableEffect | controller/app/index.js:130-140 | walking a switch's table keeps the keys and every camera's address, flag and timestamps; cameras not reported are unchanged; each reported known MAC ends where its last row says; at most one patch per row, each a linking patch of a known camera for this switch |
| Cameras.Topology | controller/app/index.js:124-142 | the mapping over every switch, stopping at the first failed session; its properties are those of `TopologyEffect`, `TopologyKeepsUnreported` and `TopologyLastReportWins` below |
| Cameras.TopologyEffect | controller/app/index.js:124-142 | mapping keeps the keys and every status field; it only sends linking patches of known cameras; it succeeds iff every switch's session does |
| Cameras.NotSeen | controller/app/index.js:150 | a camera never heard from counts as not seen; one heard from at a nonzero `now` is seen |
| Cameras.NotRebooted | controller/app/index.js:151 | a camera never power-cycled may be power-cycled; one stamped at a nonzero `now` may not |
| Cameras.Located | controller/app/index.js:167 | a camera on port 0 or on the empty interface name is never located; a located camera has a switch address |
| Cameras.Due | controller/app/index.js:164-167 | a camera heard from, or power-cycled, at a nonzero `now` is not power-cycled then; a due camera has a nonzero port |
| Cameras.TopologyKeepsUnreported | controller/app/index.js:124-142 | a camera that no switch reports keeps its whole record, and so its last-known attachment, through the mapping |
| Cameras.TopologyLastReportWins | controller/app/index.js:124-142 | when every switch up to switch `i` is mapped, a known MAC whose last report is row `j` of switch `i`'s table ends attached to that switch's interface and address and to that row's port |
| Cameras.Checked | controller/app/index.js:148-176 | after its check a camera is online iff it was online and seen within 10 s; its address, `lastSeen` and link are kept; `lastReboot` becomes `now` iff it was due and its power-cycle succeeded |
| Cameras.CheckEvents | controller/app/index.js:153-177 | the calls of one body of the liveness loop, in order; its properties are those of `CheckEventsCalls` below |
| Cameras.CheckOk | controller/app/index.js:171-176 | whether one camera's task resolves; its properties are those of `AllChecksOkMeans` and `LivenessEffect` below |
| Cameras.CheckEventsCalls | controller/app/index.js:153-177 | one camera's check sends exactly one offline patch iff it was online and not seen; it power-cycles the camera's own port for 4 s when it is due; it makes no other call |
| Cameras.LivenessEvents | controller/app/index.js:144-179 | the calls of the liveness loop, camera after camera; its properties are those of `LivenessEventsCalls` and `OfflinePatchCount` below |
| Cameras.LivenessEventsCalls | controller/app/index.js:146-179 | the liveness loop only sends offline patches of walked cameras and reboots of walked due cameras, and it reboots every walked camera that is due |
| Cameras.OfflinePatchCount | controller/app/index.js:153-162 | over distinct MACs, a camera gets exactly one offline patch if it was online and not seen, and none otherwise |
| Cameras.AllChecksOk | controller/app/index.js:181 | the `Promise.all` over the liveness tasks; its meaning is stated by `AllChecksOkMeans` below |
| Cameras.AllChecksOkMeans | controller/app/index.js:181 | `Promise.all` over the tasks succeeds iff every camera's task does |
| Cameras.Liveness | controller/app/index.js:144-181 | the walk over the keys in insertion order, ending in `Promise.all`; its properties are those of `LivenessEffect` below |
| Cameras.LivenessEffect | controller/app/index.js:144-181 | the liveness pass keeps the keys; it only clears flags and stamps `lastReboot`; unwalked records are unchanged; a walked camera's flag and stamp are as `Checked` says; the pass succeeds iff every due camera's power-cycle succeeds |
| Cameras.LivenessStep | controller/app/index.js:146-179 | walking one more camera adds its own check to the table, appends its calls, and adds its task to the barrier |
| Cameras.OnlineMeansRecentlySeen | controller/app/index.js:150-162 | after a pass over every camera, a camera is online only if it was heard from within the last 10 s |
| Cameras.HeartbeatKeepsOfflineStale | controller/app/index.js:36-51 | a heartbeat at a time no earlier than `clock` keeps every offline camera unheard for more than 10 s, at the new time |
| Cameras.RecentlySeenMeansOnline | controller/app/index.js:150-162 | starting from a table whose offline cameras are stale, a pass over every camera leaves a camera online exactly when it was heard from within 10 s, and keeps offline cameras stale |
| Cameras.TopologyKeepsOfflineStale | controller/app/index.js:124-142 | the mapping keeps offline cameras stale, because it changes no status |
| Cameras.LivenessKeepsOfflineStale | controller/app/index.js:150-162 | a pass at a time no earlier than `clock` only takes cameras offline that have gone unheard for more than 10 s, so offline cameras stay stale |
| Cameras.LoopKeepsOfflineStale | controller/app/index.js:122-205 | an iteration at a time no earlier than `clock` keeps offline cameras stale; when every switch is mapped and every camera is walked, a camera is online afterwards exactly when it was heard from within 10 s |
| Cameras.RebootCooldown | controller/app/index.js:151-176 | a camera stamped at a nonzero time is not power-cycled again by a pass within 60 s, and its stamp is kept |
| Cameras.Claimed | controller/app/index.js:194 | a port of an interface is claimed when some camera has that interface and port; its properties are those of `ClaimIgnoresSwitch` and `OrphanPortsMembers` |
| Cameras.ClaimIgnoresSwitch | controller/app/index.js:194 | moving a camera to another switch address keeps every claim: the switch address is not compared |
| Cameras.OrphanPorts | controller/app/index.js:193-197 | the port loop of one switch; its properties are those of `OrphanPortsMembers` and `OrphanPortsAscending` |
| Cameras.OrphanPortsMembers | controller/app/index.js:193-197 | the swept ports of a switch are exactly the ports in `[0, SWITCH_PORTS)` that no camera claims by interface and port |
| Cameras.OrphanPortsAscending | controller/app/index.js:193-197 | the sweep visits ports in strictly ascending order, so no port twice |
| Cameras.CycleAll | controller/app/index.js:193-197 | one power-cycle per swept port |
| Cameras.CycleAllInOrder | controller/app/index.js:193-197 | the i-th power-cycle is of the i-th swept port, on this switch, for 4 s |
| Cameras.CycleAllMembers | controller/app/index.js:193-197 | every swept port is power-cycled, and nothing else is |
| Cameras.AllCycledMeans | controller/app/index.js:198 | a switch's sweep succeeds iff every power-cycle on it does |
| Cameras.OrphanPortsStep | controller/app/index.js:193-198 | looking at one more port appends its power-cycle exactly when it is unclaimed, and the sweep then also depends on it |
| Cameras.Sweep | controller/app/index.js:188-202 | the sweep leaves the table alone; it only power-cycles unclaimed ports in range on configured switches whose session opened, for 4 s; it cycles every such port; it succeeds iff every switch's session opens and all its power-cycles succeed, so a failed session fails it even on a switch with no orphan port |
| Cameras.SwitchSweep | controller/app/index.js:189-197 | one switch's sweep calls: none when its session fails, otherwise `CycleAll` over `OrphanPorts`; its properties are those of `Sweep`, `CycleAllMembers` and `CycleAllInOrder` |
| Cameras.SwitchSwept | controller/app/index.js:189-198 | one switch's task resolves: its session opens and `AllCycled` holds; its meaning is stated by `AllCycledMeans` and `Sweep` |
| Cameras.FailedSweepSessionKeepsStamp | controller/app/index.js:189-203 | when one switch's sweep session fails, the iteration leaves the global `lastReboot` alone, and rejects whenever the sweep was due |
| Cameras.Loop | controller/app/index.js:122-205 | an iteration keeps the keys, addresses and `lastSeen`, sets no camera online, and moves the global `lastReboot` only to `now`, only when the 60 s had run out and everything succeeded |
| Controller.Fleet.constructor | controller/app/index.js:14 | the controller starts with no cameras, no sweep stamp and no calls |
| Controller.Fleet.SendCmd | controller/app/index.js:16-20 | sends one datagram holding the command byte |
| Controller.Fleet.Ping | controller/app/index.js:23 | sends `Payload(Ping)` |
| Controller.Fleet.Shoot | controller/app/index.js:24 | sends `Payload(Shoot)` |
| Controller.Fleet.OnMessage | controller/app/index.js:36-51 | the table and the calls are those of `Heartbeat`; a new MAC is appended to the key order; the key order stays in step with the table; `clock` becomes `now`, and `Settled` is kept when `now` is no earlier than the old `clock` |
| Controller.Fleet.LinkReported | controller/app/index.js:126-141 | walking one switch's table in place gives `LinkTable`'s table and calls |
| Controller.Fleet.MapTopology | controller/app/index.js:124-142 | the switch loop gives `Topology`'s table, calls and success, and stops at the first failed session |
| Controller.Fleet.CheckCamera | controller/app/index.js:146-178 | one body of the liveness loop replaces the camera by `Checked`, appends `CheckEvents`, and reports `CheckOk` |
| Controller.Fleet.CheckLiveness | controller/app/index.js:144-181 | the loop over the keys, in insertion order, gives `Liveness`'s table, calls and success |
| Controller.Fleet.CycleOrphans | controller/app/index.js:189-199 | the port loop of one switch power-cycles exactly `OrphanPorts`, in order, and succeeds iff `AllCycled` |
| Controller.Fleet.SweepSwitch | controller/app/index.js:189-199 | one switch's task: no call when its session fails, otherwise the power-cycles of `CycleOrphans`; it succeeds iff `SwitchSwept` |
| Controller.Fleet.SweepOrphans | controller/app/index.js:183-204 | when the 60 s have run out, it makes `Sweep`'s calls, with the sessions given, and stamps `lastReboot := now` iff the sweep succeeded; otherwise it changes nothing and succeeds |
| Controller.Fleet.Iterate | controller/app/index.js:122-205 | one `loop()` call leaves the table, stamp and calls of `Loop` and reports its success; `clock` becomes `now`; from a `Settled` state at a time no earlier than `clock`, it stays `Settled`, and when every switch is mapped, a camera is online exactly when it was heard from within 10 s |
| Provisioning.ConfigureScript | controller/app/index.js:81-115 | the requests of one complete attempt; its layout is stated by `ScriptLayout` below |
| Provisioning.ScriptLayout | controller/app/index.js:81-115 | one attempt's script has `SWITCH_PORTS + 5` requests: the two logging/RSTP commands, portfast on ports 0, 1, ... in order, the address change with mask 255.255.255.0 and vlan 0, the host address `addressEnd(desired, 200)`, and the save on the new address; all are configuration requests on this interface |
| Provisioning.DefaultSession | controller/app/index.js:80-93 | the session on the factory address, with its port loop, is the script's first `SWITCH_PORTS + 2` requests |
| Provisioning.Script | controller/app/index.js:79-115 | the attempt body makes the requests of `ConfigureScript` |
| Provisioning.Issued | controller/app/index.js:79-115 | an attempt gets through a prefix of the script, and through all of it when it completes |
| Provisioning.Configuration | controller/app/index.js:77-118 | the requests and the end of `configure`; its properties are those of `ConfigurationRetries` and `ConfigurationConfigures` below |
| Provisioning.ConfigurationRetries | controller/app/index.js:77-118 | `configure` succeeds iff one of the first five attempts completes; when all five fail it throws the fifth attempt's error; it makes only script requests; a first attempt that completes makes the script exactly once |
| Provisioning.ConfigurationConfigures | controller/app/index.js:79-115 | `configure` only makes configuration requests, all on its own interface |
| Provisioning.Configure | controller/app/index.js:77-118 | `retry(5, ...)` around the script makes the requests and gives the result of `Configuration` |
| Provisioning.CantConnectMessage | controller/app/index.js:228 | the fatal message ends with the interface's name |
| Provisioning.ProbeSwitch | controller/app/index.js:65-75 | the interface first comes up alone on octet 200 of the probed address's subnet (`interfaces.upOnly`), then the patient probe; no configuration and no `interfaces.up` |
| Provisioning.SwitchStep | controller/app/index.js:225-231 | one switch of `configureAllSwitches`; its properties are those of `SwitchStepNoUp` and `AbortAtUnreachable`, and `ProvisionSwitch` is its loop body |
| Provisioning.ProvisionSwitch | controller/app/index.js:224-231 | one body of the switch loop makes the requests, and stops the run, as `SwitchStep` says |
| Provisioning.BringUp | controller/app/index.js:238-240 | every interface comes up on its host address, in configured order |
| Provisioning.Walk | controller/app/index.js:224-234 | the switch loop, stopping at the first switch that throws; its properties are those of `WalkAborted`, `WalkNoUp` and `WalkAllAnswer` |
| Provisioning.WalkAborted | controller/app/index.js:224-234 | once a switch has thrown, later switches add no request and the error is kept |
| Provisioning.SwitchStepNoUp | controller/app/index.js:224-234 | handling one switch never calls `interfaces.up(iface, hostAddress)`; the `upOnly` of each probe still happens |
| Provisioning.WalkNoUp | controller/app/index.js:224-234 | the switch loop never calls `interfaces.up(iface, hostAddress)`; the `upOnly` of each probe still happens |
| Provisioning.Provision | controller/app/index.js:222-243 | the switch loop, then the closing bring-up when no switch threw; its properties are those of `UpOnlyAfterSuccess`, `AllAnswerNothingConfigured` and `AbortAtUnreachable` |
| Provisioning.UpOnlyAfterSuccess | controller/app/index.js:222-243 | `interfaces.up(iface, hostAddress)` is called only when no switch threw, and then for every interface, as the last requests |
| Provisioning.WalkAllAnswer | controller/app/index.js:224-234 | when every switch answers on its own address, the loop makes only the patient probes and throws nothing |
| Provisioning.AllAnswerNothingConfigured | controller/app/index.js:222-243 | when every switch answers on its own address, nothing is configured: probes, then all interfaces up |
| Provisioning.AbortAtUnreachable | controller/app/index.js:224-229 | a switch unreachable at both addresses ends the run with the error naming its interface; no later switch is probed and `interfaces.up(iface, hostAddress)` is never called |
| Provisioning.ConfigureAllSwitches | controller/app/index.js:222-243 | the loop with its early throw and the final bring-up makes the requests and gives the end of `Provision` |
| Provisioning.Gate | controller/app/index.js:258-262 | the probe loop of `run` with its `break`; its properties are those of `GateAllAnswer` and `GateFirstMiss` |
| Provisioning.GateAllAnswer | controller/app/index.js:258-262 | when every switch answers the plain probe, `run` only probes and never calls `configureAllSwitches` |
| Provisioning.GateFirstMiss | controller/app/index.js:258-262 | the first switch that misses the plain probe hands over to one `configureAllSwitches` over all switches, and its end is the gate's end |
| Provisioning.ProbeAndConfigure | controller/app/index.js:258-262 | the probe loop with its `break` makes the requests and gives the end of `Gate` |

## Left out

- The HTTP route `/api/shoot` and `app.listen`: web-framework plumbing. Only the shoot payload is
  modelled.
- Multicast sockets, `setInterval` pings, `delay`, and the UDP binding in `run` (index.js:264-282):
  I/O and timers. A send is a `Multicast` call in the log.
- `interfaces.add` and `interfaces.up` before the probe gate (index.js:249-255).
  `interfaces.upOnly`, `address` and `up` are recorded as requests and assumed to succeed.
- The switch driver (`probe`, `session`, `portMacTable` parsing, `powerCycle` timing, timeouts):
  foreign code. Its answers are inputs. A failing configuration step is `FailsAt` in an attempt,
  where the requests before it were made.
- `cameraService`: the registry's semantics are outside the model. Its calls are `Create` and
  `Patch` events in the log, and every `create` and `patch` is assumed to resolve. Two rejection
  paths are therefore not modelled:
  - a rejected `create` or `patch` in `onMessage` (index.js:43, 47) would skip the `lastSeen`
    refresh of index.js:50;
  - a rejected linking patch (index.js:139) or offline patch (index.js:160) would reject `loop()`.
- Controller.Fleet.OnMessage: keys are assumed to be 17-character MACs. For a shorter reply, two
  JavaScript behaviours are not modelled:
  - `for ... in` walks array-index keys such as `"42"` first, in numeric order;
  - a prototype name such as `"constructor"` already counts as a known camera at index.js:40.
- Controller.Fleet.Iterate: the online-iff-recently-heard property is only promised for calls
  whose `now` never goes back. Each call takes `now` as a parameter; the source reads the clock.
- `Promise.all` parallelism and any interleaving of `onMessage` with `loop`. The model runs each
  task to completion in issue order. Each camera's power-cycle is a single call whose success is
  an input.
- The `unhandledRejection` handler, `run`'s `try`/`catch` and the endless `while (true)`: process
  lifecycle. One `loop()` call is `Fleet.Iterate`; a rejection is `ok == false`.
- `Cameras.NotSeen` and `Cameras.NotRebooted`: the rounding of `time-since`'s `.secs()` is not
  modelled. Elapsed time is integer milliseconds compared strictly with 10000 and 60000.
- IP string parsing by the `ip` library: addresses are four octets.
- `controller/app/www/containers/index.js`: UI re-exports only, with no logic.
- The configuration module (`config.js`) is not part of this model. `SWITCH_PORTS`,
  `SWITCH_DEFAULT_ADDRESS` and `SWITCHES` are parameters.
