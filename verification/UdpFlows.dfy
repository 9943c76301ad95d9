/** The UDP relay's flow table: endpoint-independent mapping (section 4.1 of RFC 4787)
    of LAN devices to tunnel ports, with expiry and a finite port pool. */
module UdpFlows {
  import opened Prelude

  /** A LAN device, or a peer on the far side: address and port. */
  datatype Device = Device(ip: nat, port: nat)

  datatype Flow = Flow(src: Device, lastActivity: nat)

  datatype RelayPacket = RelayPacket(dst: Device, srcPort: nat, payload: seq<Byte>)

  datatype Table = Table(flows: map<nat, Flow>, ports: map<Device, nat>, first: nat, last: nat)

  // ---- Specification ----

  /** Each table is the inverse of the other. */
  ghost predicate Inv(s: Table) {
    && (forall d :: d in s.ports ==> s.ports[d] in s.flows && s.flows[s.ports[d]].src == d)
    && (forall p :: p in s.flows ==> s.flows[p].src in s.ports && s.ports[s.flows[p].src] == p)
  }

  /** The device's own port if nobody holds it, else the lowest free pool port. */
  ghost predicate Allocates(s: Table, preferred: nat, port: Option<nat>) {
    if preferred != 0 && preferred !in s.flows then port == Some(preferred)
    else if port.Some? then
      && s.first <= port.value <= s.last && port.value !in s.flows
      && forall q :: s.first <= q < port.value ==> q in s.flows
    else forall q :: s.first <= q <= s.last ==> q in s.flows
  }

  function Stamp(s: Table, port: nat, now: nat): Table
    requires port in s.flows
  {
    s.(flows := s.flows[port := s.flows[port].(lastActivity := now)])
  }

  function Assign(s: Table, d: Device, port: nat, now: nat): Table {
    s.(ports := s.ports[d := port], flows := s.flows[port := Flow(d, now)])
  }

  ghost predicate Touches(s: Table, d: Device, now: nat, s': Table, port: Option<nat>) {
    if d in s.ports then
      port == Some(s.ports[d]) && s' == (if s.ports[d] in s.flows then Stamp(s, s.ports[d], now) else s)
    else
      Allocates(s, d.port, port) && s' == (if port.Some? then Assign(s, d, port.value, now) else s)
  }

  predicate Idle(f: Flow, timeout: nat, now: nat) {
    (if now >= f.lastActivity then now - f.lastActivity else 0) >= timeout
  }

  function Expired(s: Table, timeout: nat, now: nat): set<nat> {
    set p | p in s.flows && Idle(s.flows[p], timeout, now)
  }

  /** The expired flows go, and with each the port of the device it names. */
  function Retired(s: Table, gone: set<nat>): Table {
    s.(flows := s.flows - gone,
       ports := map d | d in s.ports && !(exists p :: p in gone && p in s.flows && s.flows[p].src == d) :: s.ports[d])
  }

  // ---- The table ----

  class FlowTable {
    var flows: map<nat, Flow>
    var ports: map<Device, nat>
    const first: nat
    const last: nat

    ghost function View(): Table
      reads this
    {
      Table(flows, ports, first, last)
    }

    constructor (first: nat, last: nat)
      ensures View() == Table(map[], map[], first, last)
    {
      flows, ports := map[], map[];
      this.first, this.last := first, last;
    }

    method Allocate(preferred: nat) returns (port: Option<nat>)
      ensures Allocates(View(), preferred, port)
    {
      if preferred != 0 && preferred !in flows { return Some(preferred); }
      var p := first;
      while p <= last
        invariant first <= p
        invariant forall q :: first <= q < p ==> q in flows
        decreases last + 1 - p
      {
        if p !in flows { return Some(p); }
        p := p + 1;
      }
      port := None;
    }

    method Touch(src: Device, now: nat) returns (port: Option<nat>)
      modifies this`flows, this`ports
      ensures Touches(old(View()), src, now, View(), port)
    {
      if src in ports {
        var p := ports[src];
        if p in flows {
          flows := flows[p := flows[p].(lastActivity := now)];
        }
        return Some(p);
      }
      port := Allocate(src.port);
      if port.Some? {
        ports := ports[src := port.value];
        flows := flows[port.value := Flow(src, now)];
      }
    }

    method UpstreamPacket(src: Device, origDst: Device, payload: seq<Byte>, now: nat)
      returns (packet: Option<RelayPacket>)
      modifies this`flows, this`ports
      ensures packet.Some? ==> packet.value.dst == origDst && packet.value.payload == payload
      ensures Touches(old(View()), src, now, View(), if packet.Some? then Some(packet.value.srcPort) else None)
    {
      var port := Touch(src, now);
      packet := if port.Some? then Some(RelayPacket(origDst, port.value, payload)) else None;
    }

    /** Whom a reply goes to, and the address it is made to come from. */
    method DownstreamTarget(packet: RelayPacket, now: nat) returns (target: Option<(Device, Device)>)
      modifies this`flows
      ensures var s := old(View()); var p := packet.srcPort;
              if p in s.flows then target == Some((s.flows[p].src, packet.dst)) && View() == Stamp(s, p, now)
              else target == None && View() == s
    {
      if packet.srcPort !in flows { return None; }
      flows := flows[packet.srcPort := flows[packet.srcPort].(lastActivity := now)];
      target := Some((flows[packet.srcPort].src, packet.dst));
    }

    method RetireExpired(timeout: nat, now: nat) returns (count: nat)
      modifies this`flows, this`ports
      ensures View() == Retired(old(View()), Expired(old(View()), timeout, now))
      ensures count == |Expired(old(View()), timeout, now)|
    {
      ghost var s := View();
      var expired := set p | p in flows && Idle(flows[p], timeout, now);
      assert expired == Expired(s, timeout, now);
      var todo := expired;
      assert expired - todo == {};
      RetireNone(s);
      while todo != {}
        invariant todo <= expired
        invariant View() == Retired(s, expired - todo)
        decreases todo
      {
        var p :| p in todo;
        RetireOne(s, expired - todo, p);
        assert expired - (todo - {p}) == expired - todo + {p};
        var flow := flows[p];
        flows := flows - {p};
        ports := ports - {flow.src};
        todo := todo - {p};
      }
      assert expired - todo == expired;
      count := |expired|;
    }
  }

  lemma RetireNone(s: Table)
    ensures Retired(s, {}) == s
  {
    assert Retired(s, {}).ports == s.ports;
  }

  lemma RetireOne(s: Table, gone: set<nat>, p: nat)
    requires p in s.flows && p !in gone
    ensures var r := Retired(s, gone);
            p in r.flows && Retired(s, gone + {p}) == r.(flows := r.flows - {p}, ports := r.ports - {r.flows[p].src})
  {
    var r := Retired(s, gone);
    assert Retired(s, gone + {p}).ports == r.ports - {r.flows[p].src};
    assert Retired(s, gone + {p}).flows == r.flows - {p};
  }

  // ---- Steps keep the tables inverse ----

  lemma TouchInv(s: Table, d: Device, now: nat, s': Table, port: Option<nat>)
    requires Inv(s) && Touches(s, d, now, s', port)
    ensures Inv(s') && s'.first == s.first && s'.last == s.last
    ensures port.Some? ==> d in s'.ports && s'.ports[d] == port.value
    ensures forall e :: e in s.ports ==> e in s'.ports && s'.ports[e] == s.ports[e]
  {
    if d !in s.ports && port.Some? { assert port.value !in s.flows; }
  }

  lemma StampInv(s: Table, port: nat, now: nat)
    requires Inv(s) && port in s.flows
    ensures Inv(Stamp(s, port, now))
  {
  }

  lemma RetireInv(s: Table, gone: set<nat>)
    requires Inv(s)
    ensures Inv(Retired(s, gone))
    ensures forall d :: d in s.ports ==> (d in Retired(s, gone).ports <==> s.ports[d] !in gone)
  {
    forall d | d in s.ports ensures d in Retired(s, gone).ports <==> s.ports[d] !in gone {
      assert s.flows[s.ports[d]].src == d;
    }
  }

  /** A device is refused only when its own port is zero or held and the whole pool is held. */
  lemma RefusedOnlyWhenFull(s: Table, d: Device, now: nat, s': Table)
    requires Inv(s) && Touches(s, d, now, s', None)
    ensures d.port == 0 || d.port in s.flows
    ensures forall p :: s.first <= p <= s.last ==> p in s.flows
    ensures s' == s
  {
  }

  /** A device keeps its port in a retirement if and only if its last packet is less than
      `timeout` before it; otherwise device and port are free. */
  lemma ActiveSurvives(s: Table, timeout: nat, now: nat, d: Device)
    requires Inv(s) && d in s.ports
    ensures var r, p := Retired(s, Expired(s, timeout, now)), s.ports[d];
            var last := s.flows[p].lastActivity;
            if timeout == 0 || last + timeout <= now
            then d !in r.ports && p !in r.flows
            else d in r.ports && r.ports[d] == p && p in r.flows && r.flows[p] == s.flows[p]
  {
    RetireInv(s, Expired(s, timeout, now));
  }

  // ---- Whole runs ----

  datatype Event =
    | Up(src: Device, at: nat, port: Option<nat>)
    | Down(via: nat, at: nat, target: Option<Device>)
    | Retire(timeout: nat, at: nat)

  ghost predicate Step(s: Table, e: Event, s': Table) {
    match e
    case Up(src, at, port) => Touches(s, src, at, s', port)
    case Down(port, at, target) =>
      if port in s.flows then target == Some(s.flows[port].src) && s' == Stamp(s, port, at)
      else target == None && s' == s
    case Retire(timeout, at) => s' == Retired(s, Expired(s, timeout, at))
  }

  ghost predicate IsRun(first: nat, last: nat, states: seq<Table>, events: seq<Event>) {
    && |states| == |events| + 1 && states[0] == Table(map[], map[], first, last)
    && forall i :: 0 <= i < |events| ==> Step(states[i], events[i], states[i + 1])
  }

  /** The event is a packet through `port`: one that went up through it, or a reply that
      was delivered. */
  predicate Through(e: Event, port: nat) {
    match e
    case Up(_, _, p) => p == Some(port)
    case Down(via, _, target) => via == port && target.Some?
    case Retire(_, _) => false
  }

  /** The time of the last packet through `port`. */
  function LastPacket(events: seq<Event>, k: nat, port: nat): nat
    requires k <= |events|
  {
    if k == 0 then 0 else if Through(events[k - 1], port) then events[k - 1].at else LastPacket(events, k - 1, port)
  }

  /** The last packet is `timeout` or more before `now`. */
  predicate Silent(last: nat, timeout: nat, now: nat) {
    timeout == 0 || last + timeout <= now
  }

  /** The device that holds `port`, by the events alone: the last that sent through it,
      until a retirement that comes `timeout` or more after the last packet. */
  function Holder(events: seq<Event>, k: nat, port: nat): Option<Device>
    requires k <= |events|
  {
    if k == 0 then None
    else
      match events[k - 1]
      case Up(src, _, p) => if p == Some(port) then Some(src) else Holder(events, k - 1, port)
      case Down(_, _, _) => Holder(events, k - 1, port)
      case Retire(timeout, at) =>
        if Silent(LastPacket(events, k - 1, port), timeout, at) then None else Holder(events, k - 1, port)
  }

  /** What the events say about one port is what the table says. */
  ghost predicate Agrees(s: Table, events: seq<Event>, k: nat, p: nat)
    requires k <= |events|
  {
    Holder(events, k, p) == (if p in s.flows then Some(s.flows[p].src) else None)
    && (p in s.flows ==> LastPacket(events, k, p) == s.flows[p].lastActivity)
  }

  /** In every reachable state the tables are inverse, and the flows are exactly the ports
      that the events leave held, each with its holder and the time of its last packet. */
  lemma {:induction false} RunInv(first: nat, last: nat, states: seq<Table>, events: seq<Event>, k: nat)
    requires IsRun(first, last, states, events) && k <= |events|
    ensures Inv(states[k]) && states[k].first == first && states[k].last == last
    ensures forall p :: Agrees(states[k], events, k, p)
  {
    if k > 0 {
      RunInv(first, last, states, events, k - 1);
      assert Step(states[k - 1], events[k - 1], states[k]);
      StepInv(states[k - 1], events[k - 1], states[k]);
      forall p ensures Agrees(states[k], events, k, p) {
        assert Agrees(states[k - 1], events, k - 1, p);
        AgreesNext(states[k - 1], events, k - 1, states[k], p);
      }
    }
  }

  lemma StepInv(s: Table, e: Event, s': Table)
    requires Inv(s) && Step(s, e, s')
    ensures Inv(s') && s'.first == s.first && s'.last == s.last
  {
    match e {
      case Up(src, at, port) => TouchInv(s, src, at, s', port);
      case Down(port, at, target) => if port in s.flows { StampInv(s, port, at); }
      case Retire(timeout, at) => RetireInv(s, Expired(s, timeout, at));
    }
  }

  lemma AgreesNext(s: Table, events: seq<Event>, k: nat, s': Table, p: nat)
    requires k < |events| && Inv(s) && Step(s, events[k], s') && Agrees(s, events, k, p)
    ensures Agrees(s', events, k + 1, p)
  {
  }

  /** Over every run, a reply is delivered if and only if a device holds its tunnel port,
      and then to that device. */
  lemma RepliesReachSender(first: nat, last: nat, states: seq<Table>, events: seq<Event>, k: nat)
    requires IsRun(first, last, states, events) && k < |events| && events[k].Down?
    ensures events[k].target == Holder(events, k, events[k].via)
  {
    RunInv(first, last, states, events, k);
    assert Agrees(states[k], events, k, events[k].via);
    assert Step(states[k], events[k], states[k + 1]);
  }

  /** Over every run, the port through which a packet goes up: the one its device holds;
      else the device's own, if it has one that nobody holds; else the lowest of the pool
      that nobody holds; and none only if the whole pool is held. */
  lemma SendsThrough(first: nat, last: nat, states: seq<Table>, events: seq<Event>, k: nat)
    requires IsRun(first, last, states, events) && k < |events| && events[k].Up?
    ensures var d, port := events[k].src, events[k].port;
            && (forall p: nat :: Holder(events, k, p) == Some(d) ==> port == Some(p))
            && ((forall p: nat :: Holder(events, k, p) != Some(d)) ==>
                  if d.port != 0 && Holder(events, k, d.port) == None then port == Some(d.port)
                  else && (port.Some? ==> first <= port.value <= last && Holder(events, k, port.value) == None)
                       && (forall q: nat :: first <= q <= last && (port.Some? ==> q < port.value) ==>
                             Holder(events, k, q).Some?))
  {
    RunInv(first, last, states, events, k);
    var s, d := states[k], events[k].src;
    assert Step(s, events[k], states[k + 1]);
    forall p: nat ensures Holder(events, k, p) == if p in s.flows then Some(s.flows[p].src) else None {
      assert Agrees(s, events, k, p);
    }
    if d in s.ports { assert Holder(events, k, s.ports[d]) == Some(d); }
  }

  /** No retirement from `i` to `k` comes `timeout` or more after the last packet through `port`. */
  ghost predicate KeptAlive(events: seq<Event>, i: nat, k: nat, port: nat)
    requires i <= k <= |events|
  {
    forall m :: i <= m < k ==> !Cut(events, m, port)
  }

  predicate Cut(events: seq<Event>, m: nat, port: nat)
    requires m < |events|
  {
    events[m].Retire? && Silent(LastPacket(events, m, port), events[m].timeout, events[m].at)
  }

  /** A device keeps one tunnel port, whomever it talks to, as long as its packets are not
      too far apart for the retirements. */
  lemma {:induction false} PortIsStable(first: nat, last: nat, states: seq<Table>, events: seq<Event>, i: nat, k: nat,
                                        d: Device, port: nat)
    requires IsRun(first, last, states, events) && i <= k <= |events|
    requires Holder(events, i, port) == Some(d) && KeptAlive(events, i, k, port)
    ensures Holder(events, k, port) == Some(d) && d in states[k].ports && states[k].ports[d] == port
    decreases k - i
  {
    if i < k {
      PortIsStable(first, last, states, events, i, k - 1, d, port);
      PortIsKept(first, last, states, events, k - 1, d, port);
    }
    HolderInTable(first, last, states, events, k, d, port);
  }

  lemma PortIsKept(first: nat, last: nat, states: seq<Table>, events: seq<Event>, k: nat, d: Device, port: nat)
    requires IsRun(first, last, states, events) && k < |events|
    requires Holder(events, k, port) == Some(d) && !Cut(events, k, port)
    ensures Holder(events, k + 1, port) == Some(d)
  {
    RunInv(first, last, states, events, k);
    HolderInTable(first, last, states, events, k, d, port);
    assert Step(states[k], events[k], states[k + 1]);
    HeldIsNotGiven(states[k], events[k], states[k + 1], d, port);
  }

  /** No other device sends through a port that is held. */
  lemma HeldIsNotGiven(s: Table, e: Event, s': Table, d: Device, port: nat)
    requires Inv(s) && Step(s, e, s') && d in s.ports && s.ports[d] == port
    ensures e.Up? && e.port == Some(port) ==> e.src == d
  {
  }

  lemma HolderInTable(first: nat, last: nat, states: seq<Table>, events: seq<Event>, k: nat, d: Device, port: nat)
    requires IsRun(first, last, states, events) && k <= |events| && Holder(events, k, port) == Some(d)
    ensures d in states[k].ports && states[k].ports[d] == port
  {
    RunInv(first, last, states, events, k);
    assert Agrees(states[k], events, k, port);
  }

  /** Over every run: after a retirement a device holds a port if and only if it held it
      before and its last packet is less than `timeout` earlier. */
  lemma RetiresSilent(first: nat, last: nat, states: seq<Table>, events: seq<Event>, k: nat, port: nat)
    requires IsRun(first, last, states, events) && k < |events| && events[k].Retire?
    ensures port in states[k + 1].flows <==>
            port in states[k].flows && events[k].timeout > 0
            && LastPacket(events, k, port) + events[k].timeout > events[k].at
  {
    RunInv(first, last, states, events, k);
    RunInv(first, last, states, events, k + 1);
    assert Agrees(states[k], events, k, port) && Agrees(states[k + 1], events, k + 1, port);
  }
}
