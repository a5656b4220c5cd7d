/**
 * The camera table of the fleet controller and what each step of the
 * control loop does to it, as pure functions: the heartbeat handler, the
 * topology mapper, the liveness/recovery pass and the orphan-port sweep.
 * Each function returns the new table together with the registry and
 * switch calls the step issues, in issue order.
 */
module Cameras {

  import opened Wrappers
  import opened Net

  /** A camera counts as not seen when its last heartbeat is more than 10 s old. */
  const StaleMs: int := 10000
  /** A camera, and the orphan sweep, are power-cycled at most once per 60 s. */
  const CooldownMs: int := 60000
  /** Every power-cycle keeps the port unpowered for 4 s. */
  const PulseMs: int := 4000

  /** One camera record. Timestamps are milliseconds; the topology fields stay
      `None` until a switch reports the camera's MAC. */
  datatype Camera = Camera(
    address: Addr,
    online: bool,
    lastSeen: Option<int>,
    lastReboot: Option<int>,
    iface: Option<string>,
    switchAddress: Option<Addr>,
    port: Option<int>)

  /** The in-memory camera table, keyed by MAC. */
  type Table = map<string, Camera>

  /** One row of a switch's port-to-MAC table. */
  datatype PortMac = PortMac(port: int, mac: string)

  /** The partial records sent with `cameraService.patch`. */
  datatype Fields =
    | Recovered(address: Addr)                              // { address, online: true }
    | Linked(iface: string, switchAddress: Addr, port: int)  // { interface, switchAddress, port }
    | WentOffline                                           // { online: false }

  /** The calls the controller issues, recorded in order. */
  datatype Event =
    | Create(id: string, address: Addr, mac: string, online: bool)
    | Patch(id: string, fields: Fields)
    | PowerCycle(iface: string, switchAddress: Addr, port: int, durationMs: int)
    | Multicast(payload: seq<byte>)

  /** The observations one loop iteration depends on: the port-to-MAC table a
      switch returns (`None` when its session fails), whether the orphan sweep's
      session on a switch opens, and whether a power-cycle of a given port succeeds. */
  datatype Observations = Observations(
    macTable: (string, Addr) -> Option<seq<PortMac>>,
    sweepSession: (string, Addr) -> bool,
    cycles: (string, Addr, int) -> bool)

  /** A new table and the calls made to reach it. */
  datatype Effect = Effect(cameras: Table, events: seq<Event>)

  /** The same, together with whether every awaited call succeeded. */
  datatype Pass = Pass(cameras: Table, events: seq<Event>, ok: bool)

  /** `p` preceded by the calls `events`. */
  function After(events: seq<Event>, p: Pass): Pass
  {
    Pass(p.cameras, events + p.events, p.ok)
  }

  predicate Distinct(s: seq<string>)
  {
    forall i, j :: 0 <= i < j < |s| ==> s[i] != s[j]
  }

  /** An element of a sequence without repetitions does not occur before its own position. */
  lemma DistinctNotBefore(s: seq<string>, i: nat)
    requires Distinct(s) && i < |s|
    ensures s[i] !in s[..i]
  {
    assert forall k :: 0 <= k < i ==> s[..i][k] == s[k] && s[k] != s[i];
  }

  /** A prefix one longer ends in the next element. */
  lemma PrefixStep(s: seq<string>, i: nat)
    requires i < |s|
    ensures s[..i + 1] == s[..i] + [s[i]]
  {
  }

  /** Same address, flag and timestamps. */
  predicate SameStatus(a: Camera, b: Camera)
  {
    a.address == b.address && a.online == b.online && a.lastSeen == b.lastSeen && a.lastReboot == b.lastReboot
  }

  /** Same interface, switch and port. */
  predicate SameLink(a: Camera, b: Camera)
  {
    a.iface == b.iface && a.switchAddress == b.switchAddress && a.port == b.port
  }

  predicate Attached(c: Camera, iface: string, switchAddress: Addr, port: int)
  {
    c.iface == Some(iface) && c.switchAddress == Some(switchAddress) && c.port == Some(port)
  }

  // ---------------------------------------------------------------------------
  // Heartbeat handler

  /** The record created for a MAC heard for the first time. */
  function Discovered(address: Addr, now: int): (c: Camera)
    ensures c.online && c.address == address && c.lastSeen == Some(now)
    ensures c.lastReboot.None? && c.iface.None? && c.switchAddress.None? && c.port.None?
  {
    Camera(address, true, Some(now), None, None, None, None)
  }

  /** `onMessage` for the reply of `mac` from `address` at time `now`. */
  function Heartbeat(t: Table, mac: string, address: Addr, now: int): (r: Effect)
    ensures r.cameras.Keys == t.Keys + {mac}
    ensures r.cameras[mac].online && r.cameras[mac].address == address && r.cameras[mac].lastSeen == Some(now)
    ensures forall m :: m in t && m != mac ==> r.cameras[m] == t[m]
    // unknown MAC: a new record and exactly one create
    ensures mac !in t ==> r.cameras[mac] == Discovered(address, now)
    ensures mac !in t ==> r.events == [Create(mac, address, mac, true)]
    // known MAC: topology and lastReboot are kept
    ensures mac in t ==> SameLink(r.cameras[mac], t[mac]) && r.cameras[mac].lastReboot == t[mac].lastReboot
    // recovery: exactly one patch of address and flag, and only then
    ensures mac in t ==> (r.events == [Patch(mac, Recovered(address))] <==> t[mac].address != address || !t[mac].online)
    ensures mac in t ==> (r.events == [] <==> t[mac].address == address && t[mac].online)
  {
    if mac !in t then
      Effect(t[mac := Discovered(address, now)], [Create(mac, address, mac, true)])
    else if t[mac].address != address || !t[mac].online then
      Effect(t[mac := t[mac].(address := address, online := true, lastSeen := Some(now))],
             [Patch(mac, Recovered(address))])
    else
      Effect(t[mac := t[mac].(lastSeen := Some(now))], [])
  }

  // ---------------------------------------------------------------------------
  // Topology mapper

  /** The linking patch a table row can cause. */
  predicate IsLinkPatch(e: Event, t: Table, iface: string, switchAddress: Addr)
  {
    e.Patch? && e.id in t && e.fields.Linked? && e.fields.iface == iface && e.fields.switchAddress == switchAddress
  }

  /** One row of switch `switchAddress`'s table on `iface`: a known camera is
      re-linked, and patched, exactly when its recorded attachment differs. */
  function LinkRow(t: Table, iface: string, switchAddress: Addr, row: PortMac): (r: Effect)
    ensures r.cameras.Keys == t.Keys
    ensures forall m :: m in t && m != row.mac ==> r.cameras[m] == t[m]
    ensures row.mac !in t ==> r.cameras == t && r.events == []
    ensures row.mac in t ==> Attached(r.cameras[row.mac], iface, switchAddress, row.port)
    ensures row.mac in t ==> SameStatus(r.cameras[row.mac], t[row.mac])
    ensures r.events != [] <==> r.cameras != t
    ensures r.events != [] ==> r.events == [Patch(row.mac, Linked(iface, switchAddress, row.port))]
  {
    if row.mac in t && !Attached(t[row.mac], iface, switchAddress, row.port) then
      var c := t[row.mac].(iface := Some(iface), switchAddress := Some(switchAddress), port := Some(row.port));
      assert c != t[row.mac];
      Effect(t[row.mac := c], [Patch(row.mac, Linked(iface, switchAddress, row.port))])
    else
      Effect(t, [])
  }

  /** A row after index `j` reports the MAC of row `j` again. */
  predicate ReportedLater(rows: seq<PortMac>, j: int)
    requires 0 <= j < |rows|
  {
    exists k :: j < k < |rows| && rows[k].mac == rows[j].mac
  }

  /** The MAC appears in some row. */
  predicate Reported(rows: seq<PortMac>, mac: string)
  {
    exists k :: 0 <= k < |rows| && rows[k].mac == mac
  }

  /** The rows of one switch's table, in the order the switch returns them. */
  function LinkTable(t: Table, iface: string, switchAddress: Addr, rows: seq<PortMac>): Effect
    decreases |rows|
  {
    if rows == [] then Effect(t, [])
    else
      var first := LinkRow(t, iface, switchAddress, rows[0]);
      var rest := LinkTable(first.cameras, iface, switchAddress, rows[1..]);
      Effect(rest.cameras, first.events + rest.events)
  }

  /** What walking one switch's table does to the camera table. */
  lemma {:induction false} LinkTableEffect(t: Table, iface: string, switchAddress: Addr, rows: seq<PortMac>)
    ensures LinkTable(t, iface, switchAddress, rows).cameras.Keys == t.Keys
    ensures forall m :: m in t ==> SameStatus(LinkTable(t, iface, switchAddress, rows).cameras[m], t[m])
    // cameras whose MAC the switch does not report keep their last-known attachment
    ensures forall m :: m in t && !Reported(rows, m) ==> LinkTable(t, iface, switchAddress, rows).cameras[m] == t[m]
    // every known MAC ends up attached where its last row says
    ensures forall j :: 0 <= j < |rows| && rows[j].mac in t && !ReportedLater(rows, j) ==>
              Attached(LinkTable(t, iface, switchAddress, rows).cameras[rows[j].mac], iface, switchAddress, rows[j].port)
    ensures |LinkTable(t, iface, switchAddress, rows).events| <= |rows|
    ensures forall e :: e in LinkTable(t, iface, switchAddress, rows).events ==> IsLinkPatch(e, t, iface, switchAddress)
    decreases |rows|
  {
    if rows != [] {
      var first := LinkRow(t, iface, switchAddress, rows[0]);
      var rest := LinkTable(first.cameras, iface, switchAddress, rows[1..]);
      LinkTableEffect(first.cameras, iface, switchAddress, rows[1..]);
      LinkTableStep(t, iface, switchAddress, rows, first, rest);
    }
  }

  /** The inductive step of `LinkTable`'s contract. */
  lemma LinkTableStep(t: Table, iface: string, switchAddress: Addr, rows: seq<PortMac>, first: Effect, rest: Effect)
    requires rows != []
    requires first == LinkRow(t, iface, switchAddress, rows[0])
    requires rest.cameras.Keys == first.cameras.Keys
    requires forall m :: m in first.cameras ==> SameStatus(rest.cameras[m], first.cameras[m])
    requires forall m :: m in first.cameras && !Reported(rows[1..], m) ==> rest.cameras[m] == first.cameras[m]
    requires forall j :: 0 <= j < |rows[1..]| && rows[1..][j].mac in first.cameras && !ReportedLater(rows[1..], j) ==>
               Attached(rest.cameras[rows[1..][j].mac], iface, switchAddress, rows[1..][j].port)
    requires |rest.events| <= |rows[1..]|
    requires forall e :: e in rest.events ==> IsLinkPatch(e, first.cameras, iface, switchAddress)
    ensures forall m :: m in t ==> SameStatus(rest.cameras[m], t[m])
    ensures forall m :: m in t && !Reported(rows, m) ==> rest.cameras[m] == t[m]
    ensures forall j :: 0 <= j < |rows| && rows[j].mac in t && !ReportedLater(rows, j) ==>
              Attached(rest.cameras[rows[j].mac], iface, switchAddress, rows[j].port)
    ensures |first.events + rest.events| <= |rows|
    ensures forall e :: e in first.events + rest.events ==> IsLinkPatch(e, t, iface, switchAddress)
  {
    forall j | 0 <= j < |rows| && rows[j].mac in t && !ReportedLater(rows, j)
      ensures Attached(rest.cameras[rows[j].mac], iface, switchAddress, rows[j].port)
    {
      if j > 0 {
        assert rows[1..][j - 1] == rows[j];
      }
    }
  }

  /** The first half of `loop`: every configured switch in order; a failed session
      stops the mapping and the rest of the iteration. */
  function Topology(t: Table, switches: seq<SwitchConfig>, macTable: (string, Addr) -> Option<seq<PortMac>>): Pass
    decreases |switches|
  {
    if switches == [] then Pass(t, [], true)
    else
      var sw := switches[0];
      match macTable(sw.iface, sw.switchAddress)
      case None => Pass(t, [], false)
      case Some(rows) =>
        var first := LinkTable(t, sw.iface, sw.switchAddress, rows);
        var rest := Topology(first.cameras, switches[1..], macTable);
        Pass(rest.cameras, first.events + rest.events, rest.ok)
  }

  /** The mapping changes only topology fields of known cameras, patches only known cameras,
      and succeeds exactly when every switch's session does. */
  lemma {:induction false} TopologyEffect(t: Table, switches: seq<SwitchConfig>, macTable: (string, Addr) -> Option<seq<PortMac>>)
    ensures Topology(t, switches, macTable).cameras.Keys == t.Keys
    ensures forall m :: m in t ==> SameStatus(Topology(t, switches, macTable).cameras[m], t[m])
    ensures Topology(t, switches, macTable).ok <==> forall sw :: sw in switches ==> macTable(sw.iface, sw.switchAddress).Some?
    ensures forall e :: e in Topology(t, switches, macTable).events ==> e.Patch? && e.id in t && e.fields.Linked?
    decreases |switches|
  {
    if switches != [] {
      var sw := switches[0];
      assert forall s :: s in switches <==> s == sw || s in switches[1..];
      match macTable(sw.iface, sw.switchAddress)
      case None =>
      case Some(rows) =>
        var first := LinkTable(t, sw.iface, sw.switchAddress, rows);
        LinkTableEffect(t, sw.iface, sw.switchAddress, rows);
        TopologyEffect(first.cameras, switches[1..], macTable);
    }
  }

  /** The rows switch `sw` reports, none when its session fails. */
  function Rows(macTable: (string, Addr) -> Option<seq<PortMac>>, sw: SwitchConfig): seq<PortMac>
  {
    match macTable(sw.iface, sw.switchAddress)
    case Some(rows) => rows
    case None => []
  }

  /** A camera that no switch reports keeps its last-known record through the whole mapping. */
  lemma {:induction false} TopologyKeepsUnreported(t: Table, switches: seq<SwitchConfig>,
                                                   macTable: (string, Addr) -> Option<seq<PortMac>>)
    ensures forall m :: m in t && (forall i :: 0 <= i < |switches| ==> !Reported(Rows(macTable, switches[i]), m)) ==>
              m in Topology(t, switches, macTable).cameras && Topology(t, switches, macTable).cameras[m] == t[m]
    decreases |switches|
  {
    TopologyEffect(t, switches, macTable);
    if switches != [] {
      var sw := switches[0];
      match macTable(sw.iface, sw.switchAddress)
      case None =>
      case Some(rows) =>
        var first := LinkTable(t, sw.iface, sw.switchAddress, rows);
        LinkTableEffect(t, sw.iface, sw.switchAddress, rows);
        TopologyKeepsUnreported(first.cameras, switches[1..], macTable);
        forall m | m in t && (forall i :: 0 <= i < |switches| ==> !Reported(Rows(macTable, switches[i]), m))
          ensures Topology(t, switches, macTable).cameras[m] == t[m]
        {
          assert Rows(macTable, switches[0]) == rows;
          forall i | 0 <= i < |switches[1..]|
            ensures !Reported(Rows(macTable, switches[1..][i]), m)
          {
            assert switches[1..][i] == switches[i + 1];
          }
        }
    }
  }

  /** When the switches up to `i` are all mapped, a known MAC whose last report is row `j` of
      switch `i` ends attached to that switch's interface, address and port. */
  lemma {:induction false} TopologyLastReportWins(t: Table, switches: seq<SwitchConfig>,
                                                  macTable: (string, Addr) -> Option<seq<PortMac>>, i: nat, j: nat)
    requires i < |switches|
    requires forall k :: 0 <= k <= i ==> macTable(switches[k].iface, switches[k].switchAddress).Some?
    requires j < |Rows(macTable, switches[i])| && Rows(macTable, switches[i])[j].mac in t
    requires !ReportedLater(Rows(macTable, switches[i]), j)
    requires forall k :: i < k < |switches| ==> !Reported(Rows(macTable, switches[k]), Rows(macTable, switches[i])[j].mac)
    ensures var row := Rows(macTable, switches[i])[j];
            row.mac in Topology(t, switches, macTable).cameras &&
            Attached(Topology(t, switches, macTable).cameras[row.mac], switches[i].iface, switches[i].switchAddress, row.port)
    decreases i
  {
    if i == 0 {
      LastReportAtFirst(t, switches, macTable, j);
    } else {
      var sw := switches[0];
      var first := LinkTable(t, sw.iface, sw.switchAddress, macTable(sw.iface, sw.switchAddress).value);
      LinkTableEffect(t, sw.iface, sw.switchAddress, macTable(sw.iface, sw.switchAddress).value);
      assert Topology(t, switches, macTable).cameras == Topology(first.cameras, switches[1..], macTable).cameras;
      ShiftUnreported(switches, macTable, i, Rows(macTable, switches[i])[j].mac);
      ShiftMapped(switches, macTable, i);
      assert switches[1..][i - 1] == switches[i];
      TopologyLastReportWins(first.cameras, switches[1..], macTable, i - 1, j);
    }
  }

  /** The base case of `TopologyLastReportWins`: the last report is on the first switch. */
  lemma LastReportAtFirst(t: Table, switches: seq<SwitchConfig>, macTable: (string, Addr) -> Option<seq<PortMac>>, j: nat)
    requires 0 < |switches| && macTable(switches[0].iface, switches[0].switchAddress).Some?
    requires j < |Rows(macTable, switches[0])| && Rows(macTable, switches[0])[j].mac in t
    requires !ReportedLater(Rows(macTable, switches[0]), j)
    requires forall k :: 0 < k < |switches| ==> !Reported(Rows(macTable, switches[k]), Rows(macTable, switches[0])[j].mac)
    ensures var row := Rows(macTable, switches[0])[j];
            row.mac in Topology(t, switches, macTable).cameras &&
            Attached(Topology(t, switches, macTable).cameras[row.mac], switches[0].iface, switches[0].switchAddress, row.port)
  {
    var sw := switches[0];
    var rows := macTable(sw.iface, sw.switchAddress).value;
    var first := LinkTable(t, sw.iface, sw.switchAddress, rows);
    assert rows == Rows(macTable, sw);
    LinkTableEffect(t, sw.iface, sw.switchAddress, rows);
    assert rows[j].mac in first.cameras && Attached(first.cameras[rows[j].mac], sw.iface, sw.switchAddress, rows[j].port);
    var rest := Topology(first.cameras, switches[1..], macTable);
    assert Topology(t, switches, macTable).cameras == rest.cameras;
    ShiftUnreported(switches, macTable, 0, rows[j].mac);
    TopologyKeepsUnreported(first.cameras, switches[1..], macTable);
    assert rest.cameras[rows[j].mac] == first.cameras[rows[j].mac];
  }

  /** The switches after the first, up to `i - 1`, are mapped when those up to `i` are. */
  lemma ShiftMapped(switches: seq<SwitchConfig>, macTable: (string, Addr) -> Option<seq<PortMac>>, i: nat)
    requires 0 < i < |switches|
    requires forall k :: 0 <= k <= i ==> macTable(switches[k].iface, switches[k].switchAddress).Some?
    ensures forall k :: 0 <= k <= i - 1 ==> macTable(switches[1..][k].iface, switches[1..][k].switchAddress).Some?
  {
    forall k | 0 <= k <= i - 1
      ensures macTable(switches[1..][k].iface, switches[1..][k].switchAddress).Some?
    {
      assert switches[1..][k] == switches[k + 1];
    }
  }

  /** No switch after the first, from index `i` of the tail on, reports `mac` when none after `i` does. */
  lemma ShiftUnreported(switches: seq<SwitchConfig>, macTable: (string, Addr) -> Option<seq<PortMac>>, i: nat, mac: string)
    requires i < |switches|
    requires forall k :: i < k < |switches| ==> !Reported(Rows(macTable, switches[k]), mac)
    ensures forall k :: i - 1 < k < |switches[1..]| ==> !Reported(Rows(macTable, switches[1..][k]), mac)
  {
    forall k | i - 1 < k < |switches[1..]|
      ensures !Reported(Rows(macTable, switches[1..][k]), mac)
    {
      assert switches[1..][k] == switches[k + 1];
    }
  }

  // ---------------------------------------------------------------------------
  // Liveness and recovery

  /** A timestamp that is absent (or falsy 0) or older than `windowMs` at `now`. */
  predicate Expired(stamp: Option<int>, now: int, windowMs: int)
  {
    stamp.None? || stamp.value == 0 || now - stamp.value > windowMs
  }

  /** `notSeen`. */
  predicate NotSeen(c: Camera, now: int)
    // a camera never heard from counts as not seen; one heard from at a nonzero `now` is seen
    ensures c.lastSeen.None? ==> NotSeen(c, now)
    ensures c.lastSeen == Some(now) && now != 0 ==> !NotSeen(c, now)
  {
    Expired(c.lastSeen, now, StaleMs)
  }

  /** `notRebooted`: the camera's reboot cooldown has run out. */
  predicate NotRebooted(c: Camera, now: int)
    // a camera never power-cycled may be; one stamped at a nonzero `now` may not
    ensures c.lastReboot.None? ==> NotRebooted(c, now)
    ensures c.lastReboot == Some(now) && now != 0 ==> !NotRebooted(c, now)
  {
    Expired(c.lastReboot, now, CooldownMs)
  }

  /** Interface, switch address and port are all truthy: port 0 does not qualify. */
  predicate Located(c: Camera)
    ensures c.port == Some(0) || c.iface == Some("") ==> !Located(c)
    ensures Located(c) ==> c.switchAddress.Some?
  {
    c.iface.Some? && c.iface.value != "" && c.switchAddress.Some? && c.port.Some? && c.port.value != 0
  }

  /** The camera is power-cycled in this iteration. */
  predicate Due(c: Camera, now: int)
    // a camera heard from, or power-cycled, at a nonzero `now` is not power-cycled then
    ensures c.lastSeen == Some(now) && now != 0 ==> !Due(c, now)
    ensures c.lastReboot == Some(now) && now != 0 ==> !Due(c, now)
    ensures Due(c, now) ==> c.port.Some? && c.port.value != 0
  {
    NotSeen(c, now) && NotRebooted(c, now) && Located(c)
  }

  /** The record after the liveness loop's body: offline when not seen, and stamped
      with `now` only once a power-cycle it was due has returned. */
  function Checked(c: Camera, now: int, cycles: (string, Addr, int) -> bool): (d: Camera)
    ensures d.online == (c.online && !NotSeen(c, now))
    ensures d.address == c.address && d.lastSeen == c.lastSeen && SameLink(d, c)
    ensures d.lastReboot == if Due(c, now) && cycles(c.iface.value, c.switchAddress.value, c.port.value)
                            then Some(now) else c.lastReboot
  {
    var c1 := if c.online && NotSeen(c, now) then c.(online := false) else c;
    if Due(c, now) && cycles(c.iface.value, c.switchAddress.value, c.port.value) then c1.(lastReboot := Some(now)) else c1
  }

  /** The power-cycle of a camera's own port. */
  function Reboot(c: Camera): Event
    requires Located(c)
  {
    PowerCycle(c.iface.value, c.switchAddress.value, c.port.value, PulseMs)
  }

  /** The calls the liveness loop's body issues for camera `mac`, in order. */
  function CheckEvents(mac: string, c: Camera, now: int): seq<Event>
  {
    var patches := if c.online && NotSeen(c, now) then [Patch(mac, WentOffline)] else [];
    if Due(c, now) then patches + [Reboot(c)] else patches
  }

  /** The calls of one camera's check. */
  lemma CheckEventsCalls(mac: string, c: Camera, now: int)
    // the offline transition: exactly one patch, and only for a camera that was online
    ensures multiset(CheckEvents(mac, c, now))[Patch(mac, WentOffline)] == (if c.online && NotSeen(c, now) then 1 else 0)
    // a power-cycle of the camera's own port when it is due, and no other call
    ensures Due(c, now) ==> Reboot(c) in CheckEvents(mac, c, now)
    ensures forall e :: e in CheckEvents(mac, c, now) ==> e == Patch(mac, WentOffline) || (Due(c, now) && e == Reboot(c))
  {
  }

  /** The body's task resolves: there was no power-cycle or it succeeded. */
  predicate CheckOk(c: Camera, now: int, cycles: (string, Addr, int) -> bool)
  {
    !Due(c, now) || cycles(c.iface.value, c.switchAddress.value, c.port.value)
  }

  /** What the liveness pass may change in a record: only the flag, to false, and `lastReboot`. */
  predicate Rechecked(after: Camera, before: Camera)
  {
    after.address == before.address && after.lastSeen == before.lastSeen && SameLink(after, before) &&
    (after.online ==> before.online)
  }

  /** A call of the liveness loop over `macs`: an offline patch of a walked camera,
      or the reboot of a walked camera that is due. */
  predicate LivenessCall(t: Table, macs: seq<string>, now: int, e: Event)
    requires forall m :: m in macs ==> m in t
  {
    (e.Patch? && e.fields == WentOffline && e.id in macs) ||
    (exists m :: m in macs && Due(t[m], now) && e == Reboot(t[m]))
  }

  /** The calls of the liveness loop over `macs`, camera after camera. */
  function LivenessEvents(t: Table, macs: seq<string>, now: int): seq<Event>
    requires forall m :: m in macs ==> m in t
    decreases |macs|
  {
    if macs == [] then []
    else
      var init := macs[..|macs| - 1];
      assert forall m :: m in init ==> m in macs;
      LivenessEvents(t, init, now) + CheckEvents(macs[|macs| - 1], t[macs[|macs| - 1]], now)
  }

  /** The liveness loop issues only offline patches and reboots of walked cameras, and
      reboots every walked camera that is due. */
  lemma {:induction false} LivenessEventsCalls(t: Table, macs: seq<string>, now: int)
    requires forall m :: m in macs ==> m in t
    ensures forall e :: e in LivenessEvents(t, macs, now) ==> LivenessCall(t, macs, now, e)
    ensures forall m :: m in macs && Due(t[m], now) ==> Reboot(t[m]) in LivenessEvents(t, macs, now)
    decreases |macs|
  {
    if macs != [] {
      var init := macs[..|macs| - 1];
      var mac := macs[|macs| - 1];
      assert forall m :: m in macs <==> m in init || m == mac;
      LivenessEventsCalls(t, init, now);
      CheckEventsCalls(mac, t[mac], now);
      forall e | e in LivenessEvents(t, macs, now)
        ensures LivenessCall(t, macs, now, e)
      {
        if e in LivenessEvents(t, init, now) {
          assert LivenessCall(t, init, now, e);
        }
      }
    }
  }

  /** Every camera that was online and is not seen gets exactly one offline patch, and no other camera gets one. */
  lemma {:induction false} OfflinePatchCount(t: Table, macs: seq<string>, now: int, mac: string)
    requires forall m :: m in macs ==> m in t
    requires Distinct(macs)
    ensures multiset(LivenessEvents(t, macs, now))[Patch(mac, WentOffline)] ==
            (if mac in macs && t[mac].online && NotSeen(t[mac], now) then 1 else 0)
    decreases |macs|
  {
    if macs != [] {
      var init := macs[..|macs| - 1];
      var last := macs[|macs| - 1];
      assert Distinct(init);
      assert last !in init;
      OfflinePatchCount(t, init, now, mac);
      CheckEventsCalls(last, t[last], now);
      assert mac in macs <==> mac in init || mac == last;
      if mac != last {
        assert Patch(mac, WentOffline) !in CheckEvents(last, t[last], now);
      } else {
        LivenessEventsCalls(t, init, now);
        assert !LivenessCall(t, init, now, Patch(mac, WentOffline));
      }
    }
  }

  /** The table after the liveness loop has walked `macs`. */
  function CheckedTable(t: Table, macs: seq<string>, now: int, cycles: (string, Addr, int) -> bool): Table
  {
    map m | m in t :: if m in macs then Checked(t[m], now, cycles) else t[m]
  }

  /** Whether every task of the liveness loop over `macs` resolves. */
  predicate AllChecksOk(t: Table, macs: seq<string>, now: int, cycles: (string, Addr, int) -> bool)
    requires forall m :: m in macs ==> m in t
    decreases |macs|
  {
    if macs == [] then true
    else
      var init := macs[..|macs| - 1];
      assert forall m :: m in init ==> m in macs;
      AllChecksOk(t, init, now, cycles) && CheckOk(t[macs[|macs| - 1]], now, cycles)
  }

  /** `Promise.all` over the tasks resolves exactly when each of them does. */
  lemma {:induction false} AllChecksOkMeans(t: Table, macs: seq<string>, now: int, cycles: (string, Addr, int) -> bool)
    requires forall m :: m in macs ==> m in t
    ensures AllChecksOk(t, macs, now, cycles) <==> forall m :: m in macs ==> CheckOk(t[m], now, cycles)
    decreases |macs|
  {
    if macs != [] {
      var init := macs[..|macs| - 1];
      assert forall m :: m in macs <==> m in init || m == macs[|macs| - 1];
      AllChecksOkMeans(t, init, now, cycles);
    }
  }

  /** The per-camera half of `loop` over the table's MACs `macs`: each camera's own check,
      its calls in order of `macs`, and success when every power-cycle task succeeds. */
  function Liveness(t: Table, macs: seq<string>, now: int, cycles: (string, Addr, int) -> bool): Pass
    requires forall m :: m in macs ==> m in t
  {
    Pass(CheckedTable(t, macs, now, cycles), LivenessEvents(t, macs, now), AllChecksOk(t, macs, now, cycles))
  }

  /** What the liveness pass does to the table and when it succeeds. */
  lemma LivenessEffect(t: Table, macs: seq<string>, now: int, cycles: (string, Addr, int) -> bool)
    requires forall m :: m in macs ==> m in t
    ensures Liveness(t, macs, now, cycles).cameras.Keys == t.Keys
    ensures forall m :: m in t ==> Rechecked(Liveness(t, macs, now, cycles).cameras[m], t[m])
    ensures forall m :: m in t && m !in macs ==> Liveness(t, macs, now, cycles).cameras[m] == t[m]
    // a walked camera is online afterwards exactly when it was online and has been seen within 10 s
    ensures forall m :: m in macs ==> Liveness(t, macs, now, cycles).cameras[m].online == (t[m].online && !NotSeen(t[m], now))
    // and is stamped exactly when it was due and its power-cycle succeeded
    ensures forall m :: m in macs ==>
              Liveness(t, macs, now, cycles).cameras[m].lastReboot ==
              if Due(t[m], now) && CheckOk(t[m], now, cycles) then Some(now) else t[m].lastReboot
    ensures Liveness(t, macs, now, cycles).ok <==> forall m :: m in macs ==> CheckOk(t[m], now, cycles)
  {
    AllChecksOkMeans(t, macs, now, cycles);
  }

  /** Walking one more camera: its own check is added to the table, its calls are
      appended, and its task joins the others. */
  lemma LivenessStep(t: Table, macs: seq<string>, mac: string, now: int, cycles: (string, Addr, int) -> bool)
    requires forall m :: m in macs ==> m in t
    requires mac in t && mac !in macs
    ensures Liveness(t, macs + [mac], now, cycles) ==
            Pass(Liveness(t, macs, now, cycles).cameras[mac := Checked(t[mac], now, cycles)],
                 Liveness(t, macs, now, cycles).events + CheckEvents(mac, t[mac], now),
                 Liveness(t, macs, now, cycles).ok && CheckOk(t[mac], now, cycles))
  {
    LivenessTableStep(t, macs, mac, now, cycles);
    assert (macs + [mac])[..|macs|] == macs;
  }

  lemma LivenessTableStep(t: Table, macs: seq<string>, mac: string, now: int, cycles: (string, Addr, int) -> bool)
    requires mac in t
    ensures CheckedTable(t, macs + [mac], now, cycles) == CheckedTable(t, macs, now, cycles)[mac := Checked(t[mac], now, cycles)]
  {
    var macs' := macs + [mac];
    assert forall m :: m in macs' <==> m in macs || m == mac;
  }

  /** After a pass over every camera, a camera is online only if it was heard from within the last 10 s. */
  lemma OnlineMeansRecentlySeen(t: Table, macs: seq<string>, now: int, cycles: (string, Addr, int) -> bool)
    requires forall m :: m in macs ==> m in t
    requires forall m :: m in t ==> m in macs
    ensures forall m :: m in t && Liveness(t, macs, now, cycles).cameras[m].online ==>
              !NotSeen(Liveness(t, macs, now, cycles).cameras[m], now)
  {
    LivenessEffect(t, macs, now, cycles);
  }

  /** The cooldown: a camera whose power-cycle returned at `rebootedAt` is not power-cycled
      again by a pass at any time up to 60 s later. */
  lemma RebootCooldown(mac: string, c: Camera, rebootedAt: int, now: int, cycles: (string, Addr, int) -> bool)
    requires c.lastReboot == Some(rebootedAt) && rebootedAt != 0
    requires now - rebootedAt <= CooldownMs
    ensures forall i :: 0 <= i < |CheckEvents(mac, c, now)| ==> !CheckEvents(mac, c, now)[i].PowerCycle?
    ensures Checked(c, now, cycles).lastReboot == c.lastReboot
  {
  }

  /** Every offline camera had not been heard from within 10 s of `clock`. */
  predicate OfflineStale(t: Table, clock: int)
  {
    forall m :: m in t && !t[m].online ==> NotSeen(t[m], clock)
  }

  /** A heartbeat at a time no earlier than `clock` keeps every offline camera stale. */
  lemma HeartbeatKeepsOfflineStale(t: Table, mac: string, address: Addr, clock: int, now: int)
    requires OfflineStale(t, clock) && clock <= now
    ensures OfflineStale(Heartbeat(t, mac, address, now).cameras, now)
  {
    var r := Heartbeat(t, mac, address, now).cameras;
    forall m | m in r && !r[m].online
      ensures NotSeen(r[m], now)
    {
      assert m != mac && r[m] == t[m];
    }
  }

  /** After a pass over every camera, starting from a table whose offline cameras are stale,
      a camera is online exactly when it was heard from within the last 10 s, and the
      offline cameras are stale at `now`. */
  lemma RecentlySeenMeansOnline(t: Table, macs: seq<string>, clock: int, now: int, cycles: (string, Addr, int) -> bool)
    requires forall m :: m in macs <==> m in t
    requires OfflineStale(t, clock) && clock <= now
    ensures forall m :: m in t ==> (Liveness(t, macs, now, cycles).cameras[m].online <==> !NotSeen(t[m], now))
    ensures OfflineStale(Liveness(t, macs, now, cycles).cameras, now)
  {
    LivenessEffect(t, macs, now, cycles);
    LivenessKeepsOfflineStale(t, macs, clock, now, cycles);
  }

  /** The topology mapping leaves every camera's status alone, so it keeps offline cameras stale. */
  lemma TopologyKeepsOfflineStale(t: Table, switches: seq<SwitchConfig>, macTable: (string, Addr) -> Option<seq<PortMac>>, clock: int)
    requires OfflineStale(t, clock)
    ensures OfflineStale(Topology(t, switches, macTable).cameras, clock)
  {
    TopologyEffect(t, switches, macTable);
  }

  /** A liveness pass at a time no earlier than `clock` keeps offline cameras stale:
      it only takes cameras offline that have not been heard from within 10 s. */
  lemma LivenessKeepsOfflineStale(t: Table, macs: seq<string>, clock: int, now: int, cycles: (string, Addr, int) -> bool)
    requires forall m :: m in macs ==> m in t
    requires OfflineStale(t, clock) && clock <= now
    ensures OfflineStale(Liveness(t, macs, now, cycles).cameras, now)
  {
    LivenessEffect(t, macs, now, cycles);
  }

  /** The table an iteration leaves: the mapped table, walked by the liveness pass when the mapping succeeded. */
  lemma LoopCameras(t: Table, macs: seq<string>, lastReboot: Option<int>, switches: seq<SwitchConfig>, n: nat,
                    obs: Observations, now: int)
    requires forall m :: m in macs ==> m in t
    ensures var topo := Topology(t, switches, obs.macTable);
            Loop(t, macs, lastReboot, switches, n, obs, now).cameras ==
            if topo.ok then Liveness(topo.cameras, macs, now, obs.cycles).cameras else topo.cameras
  {
  }

  /** An iteration at a time no earlier than `clock` keeps every offline camera stale;
      when the topology mapping succeeds and the pass walks every camera, a camera is
      online afterwards exactly when it was heard from within the last 10 s. */
  lemma LoopKeepsOfflineStale(t: Table, macs: seq<string>, lastReboot: Option<int>, switches: seq<SwitchConfig>, n: nat,
                              obs: Observations, clock: int, now: int)
    requires forall m :: m in macs ==> m in t
    requires OfflineStale(t, clock) && clock <= now
    ensures OfflineStale(Loop(t, macs, lastReboot, switches, n, obs, now).cameras, now)
    ensures Topology(t, switches, obs.macTable).ok && (forall m :: m in t ==> m in macs) ==>
              forall m :: m in t ==> (Loop(t, macs, lastReboot, switches, n, obs, now).cameras[m].online <==> !NotSeen(t[m], now))
  {
    var topo := Topology(t, switches, obs.macTable);
    LoopCameras(t, macs, lastReboot, switches, n, obs, now);
    TopologyKeepsOfflineStale(t, switches, obs.macTable, clock);
    if topo.ok {
      TopologyEffect(t, switches, obs.macTable);
      LivenessKeepsOfflineStale(topo.cameras, macs, clock, now, obs.cycles);
      if forall m :: m in t ==> m in macs {
        RecentlySeenMeansOnline(topo.cameras, macs, clock, now, obs.cycles);
      }
    }
  }

  /** A sweep session that does not open leaves the global stamp alone and, when the sweep
      was due, makes the iteration reject, even on a switch with no orphan port. */
  lemma FailedSweepSessionKeepsStamp(t: Table, macs: seq<string>, lastReboot: Option<int>, switches: seq<SwitchConfig>, n: nat,
                                     obs: Observations, now: int, sw: SwitchConfig)
    requires forall m :: m in macs ==> m in t
    requires sw in switches && !obs.sweepSession(sw.iface, sw.switchAddress)
    ensures Loop(t, macs, lastReboot, switches, n, obs, now).lastReboot == lastReboot
    ensures Expired(lastReboot, now, CooldownMs) ==> !Loop(t, macs, lastReboot, switches, n, obs, now).ok
  {
  }

  // ---------------------------------------------------------------------------
  // Orphan-port sweep

  /** Some camera claims port `port` on interface `iface`; the switch address is not compared. */
  predicate Claimed(t: Table, iface: string, port: int)
  {
    exists m :: m in t && t[m].iface == Some(iface) && t[m].port == Some(port)
  }

  /** A claim does not depend on any camera's switch address: moving a camera to
      another switch on the same interface and port keeps every claim. */
  lemma ClaimIgnoresSwitch(t: Table, mac: string, switchAddress: Option<Addr>, iface: string, port: int)
    requires mac in t
    ensures Claimed(t[mac := t[mac].(switchAddress := switchAddress)], iface, port) == Claimed(t, iface, port)
  {
    var u := t[mac := t[mac].(switchAddress := switchAddress)];
    if Claimed(t, iface, port) {
      var m :| m in t && t[m].iface == Some(iface) && t[m].port == Some(port);
      assert m in u && u[m].iface == Some(iface) && u[m].port == Some(port);
    }
    if Claimed(u, iface, port) {
      var m :| m in u && u[m].iface == Some(iface) && u[m].port == Some(port);
      assert m in t && t[m].iface == Some(iface) && t[m].port == Some(port);
    }
  }

  /** The ports in [0, n) of `iface` that no camera claims, in ascending order. */
  function OrphanPorts(t: Table, iface: string, n: nat): seq<int>
  {
    if n == 0 then []
    else OrphanPorts(t, iface, n - 1) + (if Claimed(t, iface, n - 1) then [] else [n - 1])
  }

  /** The sweep of a switch visits exactly the unclaimed ports in [0, n). */
  lemma {:induction false} OrphanPortsMembers(t: Table, iface: string, n: nat)
    ensures forall p :: p in OrphanPorts(t, iface, n) <==> 0 <= p < n && !Claimed(t, iface, p)
  {
    if n > 0 {
      OrphanPortsMembers(t, iface, n - 1);
      var step: seq<int> := if Claimed(t, iface, n - 1) then [] else [n - 1];
      assert forall p :: p in OrphanPorts(t, iface, n) <==> p in OrphanPorts(t, iface, n - 1) || p in step;
    }
  }

  /** The sweep visits the ports of a switch in ascending order, so no port twice. */
  lemma {:induction false} OrphanPortsAscending(t: Table, iface: string, n: nat)
    ensures forall i, j :: 0 <= i < j < |OrphanPorts(t, iface, n)| ==> OrphanPorts(t, iface, n)[i] < OrphanPorts(t, iface, n)[j]
  {
    if n > 0 {
      var below := OrphanPorts(t, iface, n - 1);
      OrphanPortsAscending(t, iface, n - 1);
      OrphanPortsMembers(t, iface, n - 1);
      assert forall i :: 0 <= i < |below| ==> below[i] in below;
      assert forall i :: 0 <= i < |below| ==> OrphanPorts(t, iface, n)[i] == below[i];
    }
  }

  /** The power-cycles the sweep issues on one switch, in the order of `ports`. */
  function CycleAll(iface: string, switchAddress: Addr, ports: seq<int>): (r: seq<Event>)
    ensures |r| == |ports|
  {
    if ports == [] then []
    else CycleAll(iface, switchAddress, ports[..|ports| - 1]) + [PowerCycle(iface, switchAddress, ports[|ports| - 1], PulseMs)]
  }

  /** The `i`-th power-cycle is that of the `i`-th port, each for 4 s. */
  lemma {:induction false} CycleAllInOrder(iface: string, switchAddress: Addr, ports: seq<int>, i: nat)
    requires i < |ports|
    ensures CycleAll(iface, switchAddress, ports)[i] == PowerCycle(iface, switchAddress, ports[i], PulseMs)
    decreases |ports|
  {
    if i < |ports| - 1 {
      CycleAllInOrder(iface, switchAddress, ports[..|ports| - 1], i);
    }
  }

  /** Every port is power-cycled, and nothing else is. */
  lemma CycleAllMembers(iface: string, switchAddress: Addr, ports: seq<int>)
    ensures forall p :: p in ports ==> PowerCycle(iface, switchAddress, p, PulseMs) in CycleAll(iface, switchAddress, ports)
    ensures forall e :: e in CycleAll(iface, switchAddress, ports) ==>
              e.PowerCycle? && e.iface == iface && e.switchAddress == switchAddress && e.port in ports && e.durationMs == PulseMs
  {
    var r := CycleAll(iface, switchAddress, ports);
    forall i | 0 <= i < |ports|
      ensures r[i] == PowerCycle(iface, switchAddress, ports[i], PulseMs)
    {
      CycleAllInOrder(iface, switchAddress, ports, i);
    }
  }

  /** A switch's sweep succeeds when every power-cycle on it does, which is checked
      port after port. */
  predicate AllCycled(iface: string, switchAddress: Addr, ports: seq<int>, cycles: (string, Addr, int) -> bool)
  {
    ports == [] ||
    (AllCycled(iface, switchAddress, ports[..|ports| - 1], cycles) && cycles(iface, switchAddress, ports[|ports| - 1]))
  }

  /** The per-port check succeeds exactly when the power-cycle of every port does. */
  lemma {:induction false} AllCycledMeans(iface: string, switchAddress: Addr, ports: seq<int>, cycles: (string, Addr, int) -> bool)
    ensures AllCycled(iface, switchAddress, ports, cycles) <==> forall p :: p in ports ==> cycles(iface, switchAddress, p)
    decreases |ports|
  {
    if ports != [] {
      var init := ports[..|ports| - 1];
      AllCycledMeans(iface, switchAddress, init, cycles);
      assert forall p :: p in ports <==> p in init || p == ports[|ports| - 1];
    }
  }

  /** Looking at one more port: it is cycled, last, exactly when no camera claims it,
      and the sweep then also depends on that power-cycle. */
  lemma OrphanPortsStep(t: Table, iface: string, n: nat, switchAddress: Addr, cycles: (string, Addr, int) -> bool)
    ensures CycleAll(iface, switchAddress, OrphanPorts(t, iface, n + 1)) ==
            CycleAll(iface, switchAddress, OrphanPorts(t, iface, n)) +
            (if Claimed(t, iface, n) then [] else [PowerCycle(iface, switchAddress, n, PulseMs)])
    ensures AllCycled(iface, switchAddress, OrphanPorts(t, iface, n + 1), cycles) ==
            (AllCycled(iface, switchAddress, OrphanPorts(t, iface, n), cycles) &&
             (Claimed(t, iface, n) || cycles(iface, switchAddress, n)))
  {
    var below := OrphanPorts(t, iface, n);
    if Claimed(t, iface, n) {
      assert OrphanPorts(t, iface, n + 1) == below + [];
      assert below + [] == below;
      assert CycleAll(iface, switchAddress, below) + [] == CycleAll(iface, switchAddress, below);
    } else {
      var ports := below + [n];
      assert OrphanPorts(t, iface, n + 1) == ports;
      assert ports[..|ports| - 1] == below && ports[|ports| - 1] == n;
    }
  }

  /** A call the sweep may issue: a 4 s power-cycle of an unclaimed port in [0, n) of a
      configured switch whose session opened. */
  predicate SweepCall(t: Table, switches: seq<SwitchConfig>, n: nat, sessions: (string, Addr) -> bool, e: Event)
  {
    e.PowerCycle? && e.durationMs == PulseMs && 0 <= e.port < n && !Claimed(t, e.iface, e.port) &&
    sessions(e.iface, e.switchAddress) &&
    exists sw :: sw in switches && sw.iface == e.iface && sw.switchAddress == e.switchAddress
  }

  /** The session callback on one switch, when its session opens: the unclaimed ports' power-cycles. */
  function SwitchSweep(t: Table, sw: SwitchConfig, n: nat, sessions: (string, Addr) -> bool): seq<Event>
  {
    if sessions(sw.iface, sw.switchAddress) then CycleAll(sw.iface, sw.switchAddress, OrphanPorts(t, sw.iface, n)) else []
  }

  /** A switch's task resolves: its session opened and every power-cycle in it succeeded. */
  predicate SwitchSwept(t: Table, sw: SwitchConfig, n: nat, sessions: (string, Addr) -> bool, cycles: (string, Addr, int) -> bool)
  {
    sessions(sw.iface, sw.switchAddress) && AllCycled(sw.iface, sw.switchAddress, OrphanPorts(t, sw.iface, n), cycles)
  }

  /** The sweep over every configured switch. */
  function Sweep(t: Table, switches: seq<SwitchConfig>, n: nat, sessions: (string, Addr) -> bool,
                 cycles: (string, Addr, int) -> bool): (r: Pass)
    ensures r.cameras == t
    // never a claimed port, never outside [0, n), only on configured switches whose session opened
    ensures forall e :: e in r.events ==> SweepCall(t, switches, n, sessions, e)
    // and every unclaimed port of every such switch
    ensures forall sw, p :: sw in switches && sessions(sw.iface, sw.switchAddress) && 0 <= p < n && !Claimed(t, sw.iface, p) ==>
              PowerCycle(sw.iface, sw.switchAddress, p, PulseMs) in r.events
    // a session that fails, even on a switch with no orphan port, fails the sweep
    ensures r.ok <==> forall sw :: sw in switches ==> SwitchSwept(t, sw, n, sessions, cycles)
    decreases |switches|
  {
    if switches == [] then Pass(t, [], true)
    else
      var sw := switches[0];
      var rest := Sweep(t, switches[1..], n, sessions, cycles);
      var first := SwitchSweep(t, sw, n, sessions);
      SweepStep(t, switches, n, sessions, first, rest.events);
      Pass(t, first + rest.events, SwitchSwept(t, sw, n, sessions, cycles) && rest.ok)
  }

  /** Unfolds `Topology` at switch `i`: a missing table ends the pass, a reported one is linked first. */
  lemma TopologyFrom(t: Table, switches: seq<SwitchConfig>, i: nat, macTable: (string, Addr) -> Option<seq<PortMac>>)
    requires i < |switches|
    ensures macTable(switches[i].iface, switches[i].switchAddress).None? ==>
            Topology(t, switches[i..], macTable) == Pass(t, [], false)
    ensures macTable(switches[i].iface, switches[i].switchAddress).Some? ==>
            var first := LinkTable(t, switches[i].iface, switches[i].switchAddress,
                                   macTable(switches[i].iface, switches[i].switchAddress).value);
            Topology(t, switches[i..], macTable) == After(first.events, Topology(first.cameras, switches[i + 1..], macTable))
  {
    assert switches[i..][0] == switches[i] && switches[i..][1..] == switches[i + 1..];
  }

  /** Prefixing events twice is prefixing their concatenation. */
  lemma AfterAfter(a: seq<Event>, b: seq<Event>, p: Pass)
    ensures After(a, After(b, p)) == After(a + b, p)
  {
    AppendAssoc(a, b, p.events);
  }

  /** The sweep from switch `i` on: that switch's task, then the rest. */
  lemma SweepFrom(t: Table, switches: seq<SwitchConfig>, i: nat, n: nat, sessions: (string, Addr) -> bool,
                  cycles: (string, Addr, int) -> bool)
    requires i < |switches|
    ensures Sweep(t, switches[i..], n, sessions, cycles) ==
            Pass(t, SwitchSweep(t, switches[i], n, sessions) + Sweep(t, switches[i + 1..], n, sessions, cycles).events,
                 SwitchSwept(t, switches[i], n, sessions, cycles) && Sweep(t, switches[i + 1..], n, sessions, cycles).ok)
  {
    assert switches[i..][0] == switches[i] && switches[i..][1..] == switches[i + 1..];
  }

  /** The inductive step of `Sweep`'s contract. */
  lemma SweepStep(t: Table, switches: seq<SwitchConfig>, n: nat, sessions: (string, Addr) -> bool, first: seq<Event>, rest: seq<Event>)
    requires switches != []
    requires first == SwitchSweep(t, switches[0], n, sessions)
    requires forall e :: e in rest ==> SweepCall(t, switches[1..], n, sessions, e)
    requires forall sw, p :: sw in switches[1..] && sessions(sw.iface, sw.switchAddress) && 0 <= p < n && !Claimed(t, sw.iface, p) ==>
               PowerCycle(sw.iface, sw.switchAddress, p, PulseMs) in rest
    ensures forall e :: e in first + rest ==> SweepCall(t, switches, n, sessions, e)
    ensures forall sw, p :: sw in switches && sessions(sw.iface, sw.switchAddress) && 0 <= p < n && !Claimed(t, sw.iface, p) ==>
              PowerCycle(sw.iface, sw.switchAddress, p, PulseMs) in first + rest
  {
    var head := switches[0];
    OrphanPortsMembers(t, head.iface, n);
    CycleAllMembers(head.iface, head.switchAddress, OrphanPorts(t, head.iface, n));
    assert head in switches;
    assert forall s :: s in switches[1..] ==> s in switches;
    forall e | e in first + rest
      ensures SweepCall(t, switches, n, sessions, e)
    {
      if e in first {
        assert e.iface == head.iface && e.switchAddress == head.switchAddress;
      } else {
        assert SweepCall(t, switches[1..], n, sessions, e);
      }
    }
    forall sw, p | sw in switches && sessions(sw.iface, sw.switchAddress) && 0 <= p < n && !Claimed(t, sw.iface, p)
      ensures PowerCycle(sw.iface, sw.switchAddress, p, PulseMs) in first + rest
    {
      if sw != head {
        assert sw in switches[1..];
      }
    }
  }

  // ---------------------------------------------------------------------------
  // One iteration of `loop`

  /** The table, the global sweep stamp, the calls made, and whether `loop` resolved. */
  datatype Iteration = Iteration(cameras: Table, lastReboot: Option<int>, events: seq<Event>, ok: bool)

  /** Topology mapping, then the liveness pass over `macs`, then (when its 60 s have run
      out) the orphan sweep, which stamps the global `lastReboot` only when it succeeds. */
  function Loop(t: Table, macs: seq<string>, lastReboot: Option<int>, switches: seq<SwitchConfig>, n: nat,
                obs: Observations, now: int): (r: Iteration)
    requires forall m :: m in macs ==> m in t
    ensures r.cameras.Keys == t.Keys
    ensures r.lastReboot == lastReboot || r.lastReboot == Some(now)
    ensures r.lastReboot != lastReboot ==> r.ok && Expired(lastReboot, now, CooldownMs)
    ensures forall m :: m in t ==> r.cameras[m].address == t[m].address && r.cameras[m].lastSeen == t[m].lastSeen
    ensures forall m :: m in t && r.cameras[m].online ==> t[m].online
  {
    var topo := Topology(t, switches, obs.macTable);
    TopologyEffect(t, switches, obs.macTable);
    if !topo.ok then Iteration(topo.cameras, lastReboot, topo.events, false)
    else
      var live := Liveness(topo.cameras, macs, now, obs.cycles);
      LivenessEffect(topo.cameras, macs, now, obs.cycles);
      if !live.ok then Iteration(live.cameras, lastReboot, topo.events + live.events, false)
      else if !Expired(lastReboot, now, CooldownMs) then Iteration(live.cameras, lastReboot, topo.events + live.events, true)
      else
        var sweep := Sweep(live.cameras, switches, n, obs.sweepSession, obs.cycles);
        Iteration(live.cameras, if sweep.ok then Some(now) else lastReboot,
                  topo.events + live.events + sweep.events, sweep.ok)
  }
}
