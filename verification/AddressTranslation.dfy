/** The userspace NAT: one ephemeral port per TCP session, the two tables that map
    sessions to ports and back, and the packet rewrites that use them. */
module AddressTranslation {
  import opened Prelude
  import opened PacketRewrite

  /** Source and destination of the packets of one session. */
  datatype Key = Key(src: Endpoint, dst: Endpoint)

  datatype Session = Session(realDst: Endpoint, ephPort: Port)

  /** The tables, the port counter, and how many ports were drawn before now and
      before each session. */
  datatype State = State(sessions: map<Key, Session>, portToKey: map<Port, Key>, counter: Port,
                         drawn: nat, serial: map<Key, nat>)

  const FIRST_PORT: Port := 10000
  const LAST_PORT: Port := 60000
  const CYCLE: nat := 50001

  /** The counter's value after `n` draws. */
  function PortAt(n: nat): (p: Port)
    ensures FIRST_PORT <= p <= LAST_PORT
  {
    FIRST_PORT + n % CYCLE
  }

  // ---- Specification of the event loop's steps ----

  datatype Event = Syn(key: Key, listens: bool) | Cleanup(stale: seq<Key>) | NetworkChanged

  /** The tables of a new event loop; the counter belongs to the process, and earlier
      loops have drawn from it. */
  function Initial(drawn: nat): State {
    State(map[], map[], PortAt(drawn), drawn, map[])
  }

  /** The counter after a draw. */
  function NextCounter(port: Port): Port {
    if port >= LAST_PORT then FIRST_PORT else port + 1
  }

  /** A SYN of an unknown session draws a port; if the socket listens, the session is recorded both ways. */
  function AfterSyn(s: State, key: Key, listens: bool): State {
    if key in s.sessions then s
    else
      var port := s.counter;
      var next := s.(counter := NextCounter(port), drawn := s.drawn + 1);
      if !listens then next
      else next.(sessions := s.sessions[key := Session(key.dst, port)], portToKey := s.portToKey[port := key],
                 serial := s.serial[key := s.drawn])
  }

  /** The session goes, and with it the port entry it names. */
  function Without(s: State, key: Key): State {
    if key !in s.sessions then s
    else
      var port := s.sessions[key].ephPort;
      s.(sessions := s.sessions - {key}, portToKey := s.portToKey - {port}, serial := s.serial - {key})
  }

  function AfterCleanup(s: State, stale: seq<Key>): State
    decreases stale
  {
    if stale == [] then s else AfterCleanup(Without(s, stale[0]), stale[1..])
  }

  function Apply(s: State, e: Event): State {
    match e
    case Syn(key, listens) => AfterSyn(s, key, listens)
    case Cleanup(stale) => AfterCleanup(s, stale)
    case NetworkChanged =>
      if s.sessions == map[] then s else s.(sessions := map[], portToKey := map[], serial := map[])
  }

  // ---- Invariant ----

  /** The two tables are inverse to each other, and sessions remember where their SYN went. */
  ghost predicate Inverse(s: State) {
    && (forall k :: k in s.sessions ==>
          var port := s.sessions[k].ephPort;
          s.sessions[k].realDst == k.dst && port in s.portToKey && s.portToKey[port] == k)
    && (forall p :: p in s.portToKey ==> s.portToKey[p] in s.sessions && s.sessions[s.portToKey[p]].ephPort == p)
  }

  /** Every port in use is the one the counter gave to its session's draw. */
  ghost predicate Numbered(s: State) {
    && s.counter == PortAt(s.drawn)
    && s.serial.Keys == s.sessions.Keys
    && (forall k :: k in s.sessions ==> s.serial[k] < s.drawn && s.sessions[k].ephPort == PortAt(s.serial[k]))
  }

  ghost predicate Inv(s: State) {
    Inverse(s) && Numbered(s)
  }

  /** Some live session drew the port the counter shows now: a whole number of cycles has passed since. */
  ghost predicate PortTaken(s: State) {
    exists k :: k in s.sessions && k in s.serial && (s.drawn - s.serial[k]) % CYCLE == 0
  }

  /** No live session is older than 50,000 draws, counting the next one. */
  ghost predicate Young(s: State) {
    forall k :: k in s.sessions && k in s.serial ==> s.drawn - s.serial[k] <= 50000
  }

  /** The step records a new session. */
  predicate Opens(s: State, e: Event) {
    e.Syn? && e.listens && e.key !in s.sessions
  }

  lemma CounterMoves(n: nat)
    ensures PortAt(n + 1) == NextCounter(PortAt(n))
  {
    var q, r := n / CYCLE, n % CYCLE;
    assert n + 1 == CYCLE * q + (r + 1);
    if r + 1 == CYCLE {
      DivideBy(n + 1, q + 1, 0);
    } else {
      DivideBy(n + 1, q, r + 1);
    }
  }

  lemma DivideBy(n: nat, q: nat, r: nat)
    requires n == CYCLE * q + r && r < CYCLE
    ensures n % CYCLE == r
  {
  }

  lemma SamePort(a: nat, b: nat)
    requires a <= b
    ensures PortAt(a) == PortAt(b) <==> (b - a) % CYCLE == 0
  {
    var d := b - a;
    assert b == CYCLE * (a / CYCLE + d / CYCLE) + (a % CYCLE + d % CYCLE);
  }

  // ---- Draws are numbered in every state ----

  lemma SynNumbered(s: State, key: Key, listens: bool)
    requires Numbered(s)
    ensures Numbered(AfterSyn(s, key, listens))
  {
    CounterMoves(s.drawn);
  }

  lemma {:induction false} CleanupNumbered(s: State, stale: seq<Key>)
    requires Numbered(s)
    ensures Numbered(AfterCleanup(s, stale))
    decreases stale
  {
    if stale != [] { CleanupNumbered(Without(s, stale[0]), stale[1..]); }
  }

  lemma ApplyNumbered(s: State, e: Event)
    requires Numbered(s)
    ensures Numbered(Apply(s, e))
  {
    match e {
      case Syn(key, listens) => SynNumbered(s, key, listens);
      case Cleanup(stale) => CleanupNumbered(s, stale);
      case NetworkChanged =>
    }
  }

  // ---- When the tables stay inverse ----

  lemma TakenMeansListed(s: State)
    requires Inv(s)
    ensures PortTaken(s) <==> s.counter in s.portToKey
  {
    forall k | k in s.sessions ensures s.sessions[k].ephPort == s.counter <==> (s.drawn - s.serial[k]) % CYCLE == 0 {
      SamePort(s.serial[k], s.drawn);
    }
    if s.counter in s.portToKey {
      assert s.portToKey[s.counter] in s.sessions;
    }
  }

  lemma FreePortKeeps(s: State, key: Key)
    requires Inverse(s) && key !in s.sessions && s.counter !in s.portToKey
    ensures Inverse(AfterSyn(s, key, true))
  {
  }

  lemma TakenPortBreaks(s: State, key: Key)
    requires Inverse(s) && key !in s.sessions && s.counter in s.portToKey
    ensures !Inverse(AfterSyn(s, key, true))
  {
    var s', k := AfterSyn(s, key, true), s.portToKey[s.counter];
    assert k in s'.sessions && s'.sessions[k].ephPort == s.counter && s'.portToKey[s.counter] == key != k;
  }

  /** A new session keeps the tables inverse if and only if its port is not still in use. */
  lemma SynKeepsExactly(s: State, key: Key)
    requires Inv(s) && key !in s.sessions
    ensures Inverse(AfterSyn(s, key, true)) <==> !PortTaken(s)
  {
    TakenMeansListed(s);
    if s.counter in s.portToKey { TakenPortBreaks(s, key); } else { FreePortKeeps(s, key); }
  }

  lemma YoungNotTaken(s: State)
    requires Numbered(s) && Young(s)
    ensures !PortTaken(s)
  {
    forall k | k in s.sessions && k in s.serial ensures (s.drawn - s.serial[k]) % CYCLE != 0 {
      assert 0 < s.drawn - s.serial[k] < CYCLE;
    }
  }

  lemma WithoutInverse(s: State, key: Key)
    requires Inverse(s)
    ensures Inverse(Without(s, key))
  {
  }

  lemma {:induction false} CleanupInverse(s: State, stale: seq<Key>)
    requires Inverse(s)
    ensures Inverse(AfterCleanup(s, stale))
    decreases stale
  {
    if stale != [] {
      WithoutInverse(s, stale[0]);
      CleanupInverse(Without(s, stale[0]), stale[1..]);
    }
  }

  /** Cleanup removes exactly the stale sessions. */
  lemma {:induction false} CleanupRemoves(s: State, stale: seq<Key>)
    ensures AfterCleanup(s, stale).sessions == map k | k in s.sessions && k !in stale :: s.sessions[k]
    decreases stale
  {
    if stale != [] {
      CleanupRemoves(Without(s, stale[0]), stale[1..]);
    }
  }

  /** A step breaks the tables if and only if it opens a session on a port still in use. */
  lemma ApplyInverse(s: State, e: Event)
    requires Inv(s)
    ensures Inverse(Apply(s, e)) <==> !(Opens(s, e) && PortTaken(s))
  {
    match e {
      case Syn(key, listens) => if Opens(s, e) { SynKeepsExactly(s, key); }
      case Cleanup(stale) => CleanupInverse(s, stale);
      case NetworkChanged =>
    }
  }

  // ---- Whole runs ----

  /** States passed by a run of the event loop; the process may have drawn ports before. */
  ghost predicate IsRun(states: seq<State>, events: seq<Event>) {
    && |states| == |events| + 1 && states[0] == Initial(states[0].drawn)
    && forall i :: 0 <= i < |events| ==> states[i + 1] == Apply(states[i], events[i])
  }

  lemma {:induction false} RunNumbered(states: seq<State>, events: seq<Event>, n: nat)
    requires IsRun(states, events) && n <= |events|
    ensures Numbered(states[n])
  {
    if n > 0 {
      RunNumbered(states, events, n - 1);
      ApplyNumbered(states[n - 1], events[n - 1]);
    }
  }

  /** None of the first `n` steps opens a session on a port still in use. */
  ghost predicate PortsFree(states: seq<State>, events: seq<Event>, n: nat)
    requires n <= |events| < |states|
  {
    forall i :: 0 <= i < n && Opens(states[i], events[i]) ==> !PortTaken(states[i])
  }

  /** The tables are inverse from the start up to state `n`. */
  ghost predicate InverseUpTo(states: seq<State>, n: nat)
    requires n < |states|
  {
    forall i :: 0 <= i <= n ==> Inverse(states[i])
  }

  lemma StepUpTo(states: seq<State>, events: seq<Event>, n: nat)
    requires n < |events| < |states|
    ensures InverseUpTo(states, n + 1) <==> InverseUpTo(states, n) && Inverse(states[n + 1])
    ensures PortsFree(states, events, n + 1) <==>
            PortsFree(states, events, n) && !(Opens(states[n], events[n]) && PortTaken(states[n]))
  {
  }

  /** A run keeps its tables inverse throughout, if and only if no session is opened on a
      port that a live session drew a whole number of cycles before. */
  lemma {:induction false} RunInverseExactly(states: seq<State>, events: seq<Event>, n: nat)
    requires IsRun(states, events) && n <= |events|
    ensures InverseUpTo(states, n) <==> PortsFree(states, events, n)
  {
    if n > 0 {
      RunInverseExactly(states, events, n - 1);
      RunNumbered(states, events, n - 1);
      StepUpTo(states, events, n - 1);
      if Inverse(states[n - 1]) { ApplyInverse(states[n - 1], events[n - 1]); }
    }
  }

  /** At the SYNs of the first `n` events, no live session is older than 50,000 draws. */
  ghost predicate NoneOutlives(states: seq<State>, events: seq<Event>, n: nat)
    requires n <= |events| < |states|
  {
    forall i :: 0 <= i < n && events[i].Syn? ==> Young(states[i])
  }

  /** While no session outlives 50,000 later draws, the tables stay inverse: live sessions
      have distinct ports, and each port's packets are its session's. */
  lemma RunInv(states: seq<State>, events: seq<Event>, n: nat)
    requires IsRun(states, events) && n <= |events| && NoneOutlives(states, events, n)
    ensures Inv(states[n])
    ensures forall j, k :: j in states[n].sessions && k in states[n].sessions && j != k ==>
              states[n].sessions[j].ephPort != states[n].sessions[k].ephPort
  {
    RunNumbered(states, events, n);
    forall i | 0 <= i < n && Opens(states[i], events[i]) ensures !PortTaken(states[i]) {
      RunNumbered(states, events, i);
      YoungNotTaken(states[i]);
    }
    RunInverseExactly(states, events, n);
  }

  // ---- What the events alone determine ----

  /** The session is open after the first `n` events: its last SYN found a socket to listen,
      and no cleanup of it and no change of network came after. */
  predicate Open(events: seq<Event>, n: nat, key: Key)
    requires n <= |events|
  {
    n > 0 &&
    match events[n - 1]
    case Syn(k, listens) => (k == key && listens) || Open(events, n - 1, key)
    case Cleanup(stale) => key !in stale && Open(events, n - 1, key)
    case NetworkChanged => false
  }

  /** Ports drawn by the first `n` events: one for every SYN of a session that is not open. */
  function Draws(events: seq<Event>, n: nat): nat
    requires n <= |events|
  {
    if n == 0 then 0
    else
      var e := events[n - 1];
      Draws(events, n - 1) + if e.Syn? && !Open(events, n - 1, e.key) then 1 else 0
  }

  /** The ports drawn before the session was opened. */
  function OpenedAfter(events: seq<Event>, n: nat, key: Key): nat
    requires n <= |events| && Open(events, n, key)
  {
    var e := events[n - 1];
    if e.Syn? && !Open(events, n - 1, key) then Draws(events, n - 1) else OpenedAfter(events, n - 1, key)
  }

  lemma StepSession(s: State, e: Event, key: Key)
    ensures var s' := Apply(s, e);
            match e
            case Syn(k, listens) =>
              if key in s.sessions then key in s'.sessions && s'.sessions[key] == s.sessions[key]
              else (key in s'.sessions <==> k == key && listens)
                   && (key in s'.sessions ==> s'.sessions[key] == Session(key.dst, s.counter))
            case Cleanup(stale) =>
              && (key in s'.sessions <==> key in s.sessions && key !in stale)
              && (key in s'.sessions ==> s'.sessions[key] == s.sessions[key])
            case NetworkChanged => key !in s'.sessions
  {
    if e.Cleanup? { CleanupRemoves(s, e.stale); }
  }

  lemma {:induction false} CleanupDrawn(s: State, stale: seq<Key>)
    ensures AfterCleanup(s, stale).drawn == s.drawn
    decreases stale
  {
    if stale != [] { CleanupDrawn(Without(s, stale[0]), stale[1..]); }
  }

  /** Over every run: the sessions in the table are exactly the open ones, each with the
      address its SYN went to, and with the port that its place among the draws gives. */
  lemma {:induction false} SessionsExactly(states: seq<State>, events: seq<Event>, n: nat, key: Key)
    requires IsRun(states, events) && n <= |events|
    ensures key in states[n].sessions <==> Open(events, n, key)
    ensures states[n].drawn == states[0].drawn + Draws(events, n)
    ensures Open(events, n, key) ==>
              states[n].sessions[key] ==
              Session(key.dst, PortAt(states[0].drawn + OpenedAfter(events, n, key)))
  {
    if n > 0 {
      var s, e := states[n - 1], events[n - 1];
      SessionsExactly(states, events, n - 1, key);
      StepSession(s, e, key);
      RunNumbered(states, events, n - 1);
      match e {
        case Syn(k, listens) => SessionsExactly(states, events, n - 1, k);
        case Cleanup(stale) => CleanupDrawn(s, stale);
        case NetworkChanged =>
      }
    }
  }

  // ---- A session that lives too long ----

  ghost predicate Reached(s: State) {
    exists states: seq<State>, events: seq<Event> :: IsRun(states, events) && states[|events|] == s
  }

  lemma OneStep(s: State, e: Event, s': State)
    requires Reached(s) && s' == Apply(s, e)
    ensures Reached(s')
  {
    var states: seq<State>, events: seq<Event> :| IsRun(states, events) && states[|events|] == s;
    var states', events' := states + [s'], events + [e];
    assert IsRun(states', events') && states'[|events'|] == s';
  }

  lemma InitialReached()
    ensures Reached(Initial(0))
  {
    var states: seq<State>, none: seq<Event> := [Initial(0)], [];
    assert IsRun(states, none) && states[|none|] == Initial(0);
  }

  /** The state with one live session, which drew its port first, after `n` draws in all. */
  function Alone(a: Key, n: nat): State {
    State(map[a := Session(a.dst, FIRST_PORT)], map[FIRST_PORT := a], PortAt(n), n, map[a := 0])
  }

  lemma CleanupOne(s: State, key: Key)
    ensures AfterCleanup(s, [key]) == Without(s, key)
  {
    assert [key][1..] == [];
  }

  /** A short session comes and goes beside it. */
  lemma ShortSession(a: Key, b: Key, n: nat)
    requires a != b && PortAt(n) != FIRST_PORT && Reached(Alone(a, n))
    ensures Reached(Alone(a, n + 1))
  {
    var s := Alone(a, n);
    var open := AfterSyn(s, b, true);
    OneStep(s, Syn(b, true), open);
    CounterMoves(n);
    assert open.portToKey - {PortAt(n)} == s.portToKey;
    assert open.sessions - {b} == s.sessions && open.serial - {b} == s.serial;
    assert Without(open, b) == Alone(a, n + 1);
    CleanupOne(open, b);
    OneStep(open, Cleanup([b]), Alone(a, n + 1));
  }

  lemma {:induction false} LongSession(a: Key, b: Key, n: nat)
    requires a != b && 1 <= n <= CYCLE
    ensures Reached(Alone(a, n))
  {
    if n == 1 {
      InitialReached();
      CounterMoves(0);
      OneStep(Initial(0), Syn(a, true), Alone(a, 1));
    } else {
      LongSession(a, b, n - 1);
      DivideBy(n - 1, 0, n - 1);
      ShortSession(a, b, n - 1);
    }
  }

  /** Two live sessions on one port, which is listed for the second. */
  function Clash(a: Key, b: Key, n: nat): State {
    State(map[a := Session(a.dst, FIRST_PORT), b := Session(b.dst, FIRST_PORT)], map[FIRST_PORT := b],
          PortAt(n + 1), n + 1, map[a := 0, b := n])
  }

  /** It happens: beside a session that stays open, 50,000 short ones come and go, and the
      next one is given its port. From then on packets of the first leave from the
      second's address, and when the first ends, those of the second leave untranslated. */
  lemma PortClash(a: Key, b: Key, n: nat)
    requires a != b && n == CYCLE
    ensures Reached(Clash(a, b, n)) && !Inverse(Clash(a, b, n))
    ensures var s := Clash(a, b, n); s.portToKey[s.sessions[a].ephPort].dst == b.dst
    ensures var s := AfterCleanup(Clash(a, b, n), [a]); b in s.sessions && s.sessions[b].ephPort !in s.portToKey
  {
    LongSession(a, b, n);
    DivideBy(n, 1, 0);
    CounterMoves(n);
    var s := Clash(a, b, n);
    OneStep(Alone(a, n), Syn(b, true), s);
    CleanupOne(s, a);
    assert s.sessions[a].ephPort in s.portToKey;
  }

  // ---- The event loop's tables ----

  function KeyOf(p: seq<Byte>, ihl: nat): Key
    requires |p| >= 20 && ihl + 4 <= |p|
  {
    Key(Endpoint(SrcIp(p), SrcPort(p, ihl)), Endpoint(DstIp(p), DstPort(p, ihl)))
  }

  /** The packet opens a session whose port can be listened on, or belongs to an open one. */
  predicate Redirected(p: seq<Byte>, sessions: map<Key, Session>, listens: bool) {
    && IsTcp4(p, 14)
    && var ihl := HeaderLength(p);
       KeyOf(p, ihl) in sessions || (IsSyn(p, ihl) && listens)
  }

  /** A packet of the inner stack that is rewritten on its way out. */
  predicate Translated(p: seq<Byte>, portToKey: map<Port, Key>) {
    |p| >= 40 && IsTcp4(p, 4) && SrcPort(p, HeaderLength(p)) in portToKey
  }

  class EventLoop {
    var sessions: map<Key, Session>
    var portToKey: map<Port, Key>
    var counter: Port
    ghost var drawn: nat
    ghost var serial: map<Key, nat>

    ghost function View(): State
      reads this
    {
      State(sessions, portToKey, counter, drawn, serial)
    }

    constructor (ghost drawn: nat, counter: Port)
      requires counter == PortAt(drawn)
      ensures View() == Initial(drawn)
    {
      sessions, portToKey, serial := map[], map[], map[];
      this.counter, this.drawn := counter, drawn;
    }

    method NextEphemeralPort() returns (port: Port)
      modifies this`counter, this`drawn
      ensures port == old(counter) && counter == NextCounter(port) && drawn == old(drawn) + 1
    {
      port := counter;
      counter := (port + 1) % 0x1_0000;
      drawn := drawn + 1;
      if port >= LAST_PORT { counter := FIRST_PORT; }
    }

    /** A TCP packet from the device: a SYN of a new session opens one, and the packets
        of open sessions are redirected to their port. A packet that ends before its TCP
        checksum crashes the loop, after its session was recorded. */
    method Inbound(pkt: array<Byte>, listens: bool) returns (crashed: bool)
      requires pkt.Length <= 0xFFFF
      modifies this, pkt
      ensures crashed <==> Redirected(old(pkt[..]), old(sessions), listens) && CutBeforeChecksum(old(pkt[..]))
      ensures !IsTcp4(old(pkt[..]), 14) ==> View() == old(View())
      ensures IsTcp4(old(pkt[..]), 14) ==>
              var ihl := HeaderLength(old(pkt[..]));
              var key := KeyOf(old(pkt[..]), ihl);
              && View() == (if IsSyn(old(pkt[..]), ihl) then AfterSyn(old(View()), key, listens) else old(View()))
              && (Redirected(old(pkt[..]), old(sessions), listens) ==>
                    key in sessions && (!crashed ==> Redirects(old(pkt[..]), pkt[..], ihl, sessions[key].ephPort)))
      ensures !Redirected(old(pkt[..]), old(sessions), listens) ==> pkt[..] == old(pkt[..])
    {
      crashed := false;
      if !IsTcp4(pkt[..], 14) { return; }
      var ihl := HeaderLength(pkt[..]);
      var key := KeyOf(pkt[..], ihl);
      if IsSyn(pkt[..], ihl) && key !in sessions {
        var port := NextEphemeralPort();
        if listens {
          sessions := sessions[key := Session(key.dst, port)];
          portToKey := portToKey[port := key];
          serial := serial[key := drawn - 1];
          crashed := RewriteInbound(pkt, ihl, port);
        }
      } else if key in sessions {
        crashed := RewriteInbound(pkt, ihl, sessions[key].ephPort);
      }
    }

    method Cleanup(stale: seq<Key>)
      modifies this`sessions, this`portToKey, this`serial
      ensures View() == AfterCleanup(old(View()), stale)
    {
      ghost var before := View();
      for i := 0 to |stale|
        invariant AfterCleanup(View(), stale[i..]) == AfterCleanup(before, stale)
      {
        assert stale[i..][1..] == stale[i + 1..];
        if stale[i] in sessions {
          var session := sessions[stale[i]];
          sessions := sessions - {stale[i]};
          portToKey := portToKey - {session.ephPort};
          serial := serial - {stale[i]};
        }
      }
      assert stale[|stale|..] == [];
    }

    method NetworkChanged()
      modifies this`sessions, this`portToKey, this`serial
      ensures View() == Apply(old(View()), Event.NetworkChanged)
      ensures sessions == map[] && counter == old(counter)
    {
      if sessions != map[] {
        sessions, portToKey, serial := map[], map[], map[];
      }
    }

    /** A packet of the inner stack on its way out: it leaves from the address the SYN of
        the session that its port is listed for was sent to. */
    method Outbound(pkt: array<Byte>) returns (crashed: bool)
      requires pkt.Length <= 0xFFFF
      modifies pkt
      ensures crashed <==> Translated(old(pkt[..]), portToKey) && CutBeforeChecksum(old(pkt[..]))
      ensures !Translated(old(pkt[..]), portToKey) ==> pkt[..] == old(pkt[..])
      ensures Translated(old(pkt[..]), portToKey) && !crashed ==>
              var ihl := HeaderLength(old(pkt[..]));
              Restores(old(pkt[..]), pkt[..], ihl, portToKey[SrcPort(old(pkt[..]), ihl)].dst)
    {
      crashed := false;
      if pkt.Length < 40 || !IsTcp4(pkt[..], 4) { return; }
      var ihl := HeaderLength(pkt[..]);
      var port := U16(pkt[ihl], pkt[ihl + 1]);
      if port in portToKey {
        crashed := RewriteSource(pkt, ihl, portToKey[port].dst);
      }
    }
  }

  /** With inverse tables, a packet leaving from a session's port is that session's: it
      leaves from the address the session's SYN was sent to. */
  lemma OwnAddress(s: State, k: Key)
    requires Inverse(s) && k in s.sessions
    ensures var port := s.sessions[k].ephPort;
            port in s.portToKey && s.portToKey[port].dst == k.dst == s.sessions[k].realDst
  {
  }

  /** So while no session outlives 50,000 draws, a packet with an IPv4 header that leaves
      from the port of a live session returns from where that session's SYN went. */
  lemma PacketsReturn(states: seq<State>, events: seq<Event>, n: nat, k: Key, p: seq<Byte>, q: seq<Byte>)
    requires IsRun(states, events) && n <= |events| && NoneOutlives(states, events, n) && k in states[n].sessions
    requires |p| <= 0xFFFF && Translated(p, states[n].portToKey) && !CutBeforeChecksum(p) && HeaderLength(p) >= 20
    requires SrcPort(p, HeaderLength(p)) == states[n].sessions[k].ephPort
    requires Restores(p, q, HeaderLength(p), states[n].portToKey[SrcPort(p, HeaderLength(p))].dst)
    ensures Returned(p, q, HeaderLength(p), k.dst)
  {
    RunInv(states, events, n);
    OwnAddress(states[n], k);
    RestoreReturns(p, q, HeaderLength(p), k.dst);
  }

  /** Over every run, a packet of the device is redirected if and only if it is TCP and its
      session is open, or it is a SYN for which a socket listens. */
  lemma RedirectedExactly(states: seq<State>, events: seq<Event>, n: nat, p: seq<Byte>, listens: bool)
    requires IsRun(states, events) && n <= |events| && |p| >= 20
    ensures Redirected(p, states[n].sessions, listens) <==>
            IsTcp4(p, 14) &&
            var ihl := HeaderLength(p); Open(events, n, KeyOf(p, ihl)) || (IsSyn(p, ihl) && listens)
  {
    if IsTcp4(p, 14) { SessionsExactly(states, events, n, KeyOf(p, HeaderLength(p))); }
  }

  /** While no session outlives 50,000 draws, a packet of the inner stack is translated if and
      only if it is TCP and leaves from the port that some open session was given. */
  lemma TranslatedExactly(states: seq<State>, events: seq<Event>, n: nat, p: seq<Byte>)
    requires IsRun(states, events) && n <= |events| && NoneOutlives(states, events, n) && |p| >= 20
    ensures Translated(p, states[n].portToKey) <==>
            |p| >= 40 && IsTcp4(p, 4) && exists k :: HasPort(states[0].drawn, events, n, k, SrcPort(p, HeaderLength(p)))
  {
    RunInv(states, events, n);
    if |p| >= 40 && IsTcp4(p, 4) {
      var port := SrcPort(p, HeaderLength(p));
      if port in states[n].portToKey {
        SessionsExactly(states, events, n, states[n].portToKey[port]);
        assert HasPort(states[0].drawn, events, n, states[n].portToKey[port], port);
      }
      if k :| HasPort(states[0].drawn, events, n, k, port) { SessionsExactly(states, events, n, k); }
    }
  }

  /** The session is open, and the port is the one its place among the draws gives. */
  predicate HasPort(drawn: nat, events: seq<Event>, n: nat, k: Key, port: Port)
    requires n <= |events|
  {
    Open(events, n, k) && port == PortAt(drawn + OpenedAfter(events, n, k))
  }

  /** A SYN of 34 bytes: a whole IPv4 header, and 14 bytes of TCP. */
  const SHORT_SYN: seq<Byte> :=
    [0x45, 0, 0, 34, 0, 0, 0, 0, 64, 6, 0, 0, 10, 0, 0, 2, 1, 1, 1, 1,
     0x30, 0x39, 1, 0xBB, 0, 0, 0, 0, 0, 0, 0, 0, 0x50, 2]

  /** It meets the test for a TCP packet and crashes the loop, leaving its session in the tables. */
  lemma ShortSynCrashes(s: State)
    requires KeyOf(SHORT_SYN, 20) !in s.sessions
    ensures Redirected(SHORT_SYN, s.sessions, true) && CutBeforeChecksum(SHORT_SYN)
    ensures IsSyn(SHORT_SYN, HeaderLength(SHORT_SYN))
    ensures KeyOf(SHORT_SYN, 20) in AfterSyn(s, KeyOf(SHORT_SYN, 20), true).sessions
  {
  }

  /** No packet holding a whole TCP header crashes the loop, either way. */
  lemma WholeHeaderIsSafe(p: seq<Byte>)
    requires |p| >= 20
    ensures HeaderLength(p) + 20 <= |p| ==> !CutBeforeChecksum(p)
    ensures IsTcp4(p, 14) && CutBeforeChecksum(p) ==> |p| - HeaderLength(p) in {14, 15, 16, 17}
  {
  }
}
