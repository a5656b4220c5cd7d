/**
 * The controller's mutable state and the steps that update it in place:
 * the camera table keyed by MAC (kept with its key insertion order, the
 * order in which the liveness loop walks it), the time of the last orphan
 * sweep, and the log of registry, switch and multicast calls issued.
 * Every step is proved to do what the corresponding function of module
 * Cameras says.
 */
module Controller {

  import opened Wrappers
  import opened Net
  import opened Cameras

  class Fleet {
    /** The configured switches, in configuration order. */
    const switches: seq<SwitchConfig>
    /** The number of ports of every switch. */
    const switchPorts: nat

    var cameras: Table
    /** The MACs of `cameras` in insertion order. */
    var order: seq<string>
    /** When the last successful orphan sweep finished. */
    var lastReboot: Option<int>
    /** Every call issued so far, in issue order. */
    var log: seq<Event>
    /** The time of the latest heartbeat or iteration. */
    ghost var clock: int

    ghost predicate Valid()
      reads this
    {
      Distinct(order) && (forall m :: m in cameras <==> m in order)
    }

    /** No camera has been marked offline while still heard from within 10 s of `clock`. */
    ghost predicate Settled()
      reads this
    {
      OfflineStale(cameras, clock)
    }

    constructor (switches: seq<SwitchConfig>, switchPorts: nat)
      ensures Valid() && Settled()
      ensures this.switches == switches && this.switchPorts == switchPorts
      ensures cameras == map[] && order == [] && lastReboot == None && log == []
    {
      this.switches := switches;
      this.switchPorts := switchPorts;
      cameras := map[];
      order := [];
      lastReboot := None;
      log := [];
      clock := 0;
    }

    /** `sendCmd`: one datagram holding the command byte. */
    method SendCmd(cmd: byte)
      modifies this`log
      ensures log == old(log) + [Multicast([cmd])]
    {
      var message := [cmd];
      log := log + [Multicast(message)];
    }

    /** `send.ping`. */
    method Ping()
      modifies this`log
      ensures log == old(log) + [Multicast(Payload(Command.Ping))]
    {
      SendCmd(0);
    }

    /** `send.shoot`. */
    method Shoot()
      modifies this`log
      ensures log == old(log) + [Multicast(Payload(Command.Shoot))]
    {
      SendCmd(1);
    }

    /** `onMessage`: the heartbeat reply `message` received from `address` at `now`. */
    method OnMessage(message: seq<byte>, address: Addr, now: int)
      requires Valid()
      modifies this`cameras, this`order, this`log, this`clock
      ensures Valid()
      ensures clock == now
      // with time not running backwards, offline cameras stay stale
      ensures old(Settled()) && old(clock) <= now ==> Settled()
      ensures cameras == Heartbeat(old(cameras), MacOf(message), address, now).cameras
      ensures log == old(log) + Heartbeat(old(cameras), MacOf(message), address, now).events
      ensures order == if MacOf(message) in old(cameras) then old(order) else old(order) + [MacOf(message)]
    {
      var mac := MacOf(message);
      var camera: Camera;
      if mac !in cameras {
        camera := Camera(address, true, Some(now), None, None, None, None);
        order := order + [mac];
        log := log + [Create(mac, address, mac, true)];
      } else if cameras[mac].address != address || !cameras[mac].online {
        camera := cameras[mac].(address := address, online := true);
        log := log + [Patch(mac, Recovered(address))];
      } else {
        camera := cameras[mac];
      }
      cameras := cameras[mac := camera.(lastSeen := Some(now))];
      if old(Settled()) && old(clock) <= now {
        HeartbeatKeepsOfflineStale(old(cameras), mac, address, old(clock), now);
      }
      clock := now;
    }

    /** The session callback on one switch: walk the rows of its port-to-MAC table
        and re-link every known camera whose recorded attachment differs. */
    method LinkReported(iface: string, switchAddress: Addr, rows: seq<PortMac>)
      modifies this`cameras, this`log
      ensures cameras == LinkTable(old(cameras), iface, switchAddress, rows).cameras
      ensures log == old(log) + LinkTable(old(cameras), iface, switchAddress, rows).events
    {
      ghost var linked: seq<Event> := [];
      var j := 0;
      while j < |rows|
        invariant 0 <= j <= |rows|
        invariant log == old(log) + linked
        invariant LinkTable(old(cameras), iface, switchAddress, rows) ==
                  Effect(LinkTable(cameras, iface, switchAddress, rows[j..]).cameras,
                         linked + LinkTable(cameras, iface, switchAddress, rows[j..]).events)
      {
        var row := rows[j];
        assert rows[j..][0] == row && rows[j..][1..] == rows[j + 1..];
        ghost var first := LinkRow(cameras, iface, switchAddress, row);
        ghost var rest := LinkTable(first.cameras, iface, switchAddress, rows[j + 1..]);
        assert LinkTable(cameras, iface, switchAddress, rows[j..]) == Effect(rest.cameras, first.events + rest.events);
        if row.mac in cameras && !Attached(cameras[row.mac], iface, switchAddress, row.port) {
          cameras := cameras[row.mac := cameras[row.mac].(iface := Some(iface),
                                                          switchAddress := Some(switchAddress),
                                                          port := Some(row.port))];
          log := log + [Patch(row.mac, Linked(iface, switchAddress, row.port))];
        }
        AppendAssoc(old(log), linked, first.events);
        AppendAssoc(linked, first.events, rest.events);
        linked := linked + first.events;
        j := j + 1;
      }
    }

    /** The first half of `loop`: read every switch's port-to-MAC table and re-link the
        cameras it reports. `ok` is false when a switch session fails. */
    method MapTopology(macTable: (string, Addr) -> Option<seq<PortMac>>) returns (ok: bool)
      requires Valid()
      modifies this`cameras, this`log
      ensures Valid()
      ensures cameras == Topology(old(cameras), switches, macTable).cameras
      ensures log == old(log) + Topology(old(cameras), switches, macTable).events
      ensures ok == Topology(old(cameras), switches, macTable).ok
    {
      TopologyEffect(cameras, switches, macTable);
      ghost var emitted: seq<Event> := [];
      var i := 0;
      while i < |switches|
        invariant 0 <= i <= |switches|
        invariant log == old(log) + emitted
        invariant Topology(old(cameras), switches, macTable) == After(emitted, Topology(cameras, switches[i..], macTable))
      {
        var sw := switches[i];
        TopologyFrom(cameras, switches, i, macTable);
        var table := macTable(sw.iface, sw.switchAddress);
        if table.None? {
          assert emitted + [] == emitted;
          ok := false;
          return;
        }
        ghost var first := LinkTable(cameras, sw.iface, sw.switchAddress, table.value);
        AfterAfter(emitted, first.events, Topology(first.cameras, switches[i + 1..], macTable));
        LinkReported(sw.iface, sw.switchAddress, table.value);
        AppendAssoc(old(log), emitted, first.events);
        emitted := emitted + first.events;
        i := i + 1;
      }
      assert switches[i..] == [];
      assert emitted + [] == emitted;
      ok := true;
    }

    /** The body of the liveness loop for camera `mac`: mark it offline when it is
        not seen, and power-cycle its port when it is also past its cooldown and
        located. `ok` is whether the camera's task resolves. */
    method CheckCamera(mac: string, now: int, cycles: (string, Addr, int) -> bool) returns (ok: bool)
      requires mac in cameras
      modifies this`cameras, this`log
      ensures cameras == old(cameras)[mac := Checked(old(cameras)[mac], now, cycles)]
      ensures log == old(log) + CheckEvents(mac, old(cameras)[mac], now)
      ensures ok == CheckOk(old(cameras)[mac], now, cycles)
    {
      var camera := cameras[mac];
      var notSeen := NotSeen(camera, now);
      var notRebooted := NotRebooted(camera, now);
      ok := true;
      if camera.online && notSeen {
        camera := camera.(online := false);
        log := log + [Patch(mac, WentOffline)];
      }
      if notSeen && notRebooted {
        if camera.iface.Some? && camera.iface.value != "" && camera.switchAddress.Some? &&
           camera.port.Some? && camera.port.value != 0
        {
          log := log + [PowerCycle(camera.iface.value, camera.switchAddress.value, camera.port.value, PulseMs)];
          ok := cycles(camera.iface.value, camera.switchAddress.value, camera.port.value);
          if ok {
            camera := camera.(lastReboot := Some(now));
          }
        }
      }
      cameras := cameras[mac := camera];
    }

    /** The per-camera half of `loop`: check every camera, walking the table in
        insertion order. `ok` is false when one of the power-cycle tasks fails; every
        task is started before any failure is noticed, so all of them run. */
    method CheckLiveness(now: int, cycles: (string, Addr, int) -> bool) returns (ok: bool)
      requires Valid()
      modifies this`cameras, this`log
      ensures Valid()
      ensures cameras == Liveness(old(cameras), order, now, cycles).cameras
      ensures log == old(log) + Liveness(old(cameras), order, now, cycles).events
      ensures ok == Liveness(old(cameras), order, now, cycles).ok
    {
      ghost var t0 := cameras;
      ok := true;
      var i := 0;
      assert order[..0] == [];
      while i < |order|
        invariant 0 <= i <= |order|
        invariant cameras.Keys == t0.Keys
        invariant cameras == Liveness(t0, order[..i], now, cycles).cameras
        invariant log == old(log) + Liveness(t0, order[..i], now, cycles).events
        invariant ok == Liveness(t0, order[..i], now, cycles).ok
      {
        var mac := order[i];
        PrefixStep(order, i);
        DistinctNotBefore(order, i);
        LivenessStep(t0, order[..i], mac, now, cycles);
        ghost var walked := Liveness(t0, order[..i], now, cycles);
        assert cameras[mac] == t0[mac];
        var taskOk := CheckCamera(mac, now, cycles);
        AppendAssoc(old(log), walked.events, CheckEvents(mac, t0[mac], now));
        ok := ok && taskOk;
        i := i + 1;
      }
      assert order[..i] == order;
    }

    /** The session callback of the sweep on one switch: power-cycle, in ascending
        order, every port that no camera claims. `ok` is false when one of them fails. */
    method CycleOrphans(iface: string, switchAddress: Addr, cycles: (string, Addr, int) -> bool) returns (ok: bool)
      modifies this`log
      ensures log == old(log) + CycleAll(iface, switchAddress, OrphanPorts(cameras, iface, switchPorts))
      ensures ok == AllCycled(iface, switchAddress, OrphanPorts(cameras, iface, switchPorts), cycles)
    {
      var t := cameras;
      ok := true;
      var port := 0;
      while port < switchPorts
        invariant 0 <= port <= switchPorts
        invariant log == old(log) + CycleAll(iface, switchAddress, OrphanPorts(t, iface, port))
        invariant ok == AllCycled(iface, switchAddress, OrphanPorts(t, iface, port), cycles)
      {
        OrphanPortsStep(t, iface, port, switchAddress, cycles);
        if !Claimed(t, iface, port) {
          AppendAssoc(old(log), CycleAll(iface, switchAddress, OrphanPorts(t, iface, port)),
                      [PowerCycle(iface, switchAddress, port, PulseMs)]);
          log := log + [PowerCycle(iface, switchAddress, port, PulseMs)];
          ok := ok && cycles(iface, switchAddress, port);
        } else {
          assert OrphanPorts(t, iface, port + 1) == OrphanPorts(t, iface, port) + [];
          assert OrphanPorts(t, iface, port) + [] == OrphanPorts(t, iface, port);
        }
        port := port + 1;
      }
    }

    /** One task of the sweep: open a session on the switch and, when it opens,
        power-cycle its orphan ports; `ok` is false when the session or a power-cycle fails. */
    method SweepSwitch(sw: SwitchConfig, sessions: (string, Addr) -> bool, cycles: (string, Addr, int) -> bool) returns (ok: bool)
      modifies this`log
      ensures log == old(log) + SwitchSweep(cameras, sw, switchPorts, sessions)
      ensures ok == SwitchSwept(cameras, sw, switchPorts, sessions, cycles)
    {
      ok := false;
      if sessions(sw.iface, sw.switchAddress) {
        ok := CycleOrphans(sw.iface, sw.switchAddress, cycles);
      } else {
        assert log + [] == log;
      }
    }

    /** The orphan-port sweep at the end of `loop`: when the last one finished more than
        60 s ago, open a session on every switch and sweep it, and stamp `lastReboot` only
        when every session opened and every power-cycle succeeded. */
    method SweepOrphans(now: int, sessions: (string, Addr) -> bool, cycles: (string, Addr, int) -> bool) returns (ok: bool)
      modifies this`lastReboot, this`log
      ensures Expired(old(lastReboot), now, CooldownMs) ==>
                log == old(log) + Sweep(cameras, switches, switchPorts, sessions, cycles).events &&
                ok == Sweep(cameras, switches, switchPorts, sessions, cycles).ok &&
                lastReboot == if ok then Some(now) else old(lastReboot)
      ensures !Expired(old(lastReboot), now, CooldownMs) ==> log == old(log) && ok && lastReboot == old(lastReboot)
    {
      ok := true;
      if !Expired(lastReboot, now, CooldownMs) {
        return;
      }
      ghost var emitted: seq<Event> := [];
      var i := 0;
      while i < |switches|
        invariant 0 <= i <= |switches|
        invariant lastReboot == old(lastReboot)
        invariant log == old(log) + emitted
        invariant Sweep(cameras, switches, switchPorts, sessions, cycles) ==
                  Pass(cameras, emitted + Sweep(cameras, switches[i..], switchPorts, sessions, cycles).events,
                       ok && Sweep(cameras, switches[i..], switchPorts, sessions, cycles).ok)
      {
        SweepFrom(cameras, switches, i, switchPorts, sessions, cycles);
        ghost var first := SwitchSweep(cameras, switches[i], switchPorts, sessions);
        ghost var rest := Sweep(cameras, switches[i + 1..], switchPorts, sessions, cycles);
        var swOk := SweepSwitch(switches[i], sessions, cycles);
        AppendAssoc(old(log), emitted, first);
        AppendAssoc(emitted, first, rest.events);
        emitted := emitted + first;
        ok := ok && swOk;
        i := i + 1;
      }
      assert switches[i..] == [];
      assert emitted + [] == emitted;
      if ok {
        lastReboot := Some(now);
      }
    }

    /** One iteration of `loop` at time `now`. `ok` is false when the iteration
        rejects, which ends the main loop. */
    method Iterate(now: int, obs: Observations) returns (ok: bool)
      requires Valid()
      modifies this`cameras, this`lastReboot, this`log, this`clock
      ensures Valid()
      ensures clock == now
      // with time not running backwards, offline cameras stay stale, and after a
      // successful mapping a camera is online exactly when heard from within 10 s
      ensures old(Settled()) && old(clock) <= now ==> Settled()
      ensures old(Settled()) && old(clock) <= now && Topology(old(cameras), switches, obs.macTable).ok ==>
                forall m :: m in cameras ==> (cameras[m].online <==> !NotSeen(cameras[m], now))
      ensures cameras == Loop(old(cameras), order, old(lastReboot), switches, switchPorts, obs, now).cameras
      ensures lastReboot == Loop(old(cameras), order, old(lastReboot), switches, switchPorts, obs, now).lastReboot
      ensures log == old(log) + Loop(old(cameras), order, old(lastReboot), switches, switchPorts, obs, now).events
      ensures ok == Loop(old(cameras), order, old(lastReboot), switches, switchPorts, obs, now).ok
    {
      ghost var r := Loop(cameras, order, lastReboot, switches, switchPorts, obs, now);
      if Settled() && clock <= now {
        LoopKeepsOfflineStale(cameras, order, lastReboot, switches, switchPorts, obs, clock, now);
      }
      clock := now;
      ghost var topo := Topology(cameras, switches, obs.macTable);
      ok := MapTopology(obs.macTable);
      if !ok {
        return;
      }
      ghost var live := Liveness(cameras, order, now, obs.cycles);
      ghost var mid := log;
      ok := CheckLiveness(now, obs.cycles);
      AppendAssoc(old(log), topo.events, live.events);
      if !ok {
        assert r == Iteration(live.cameras, old(lastReboot), topo.events + live.events, false);
        return;
      }
      ghost var sweep := Sweep(cameras, switches, switchPorts, obs.sweepSession, obs.cycles);
      ok := SweepOrphans(now, obs.sweepSession, obs.cycles);
      AppendAssoc(old(log), topo.events + live.events, sweep.events);
    }
  }
}
