/** The fake resolver: domains and addresses of 198.18.0.0/15 kept in step, with
    expiry, a bounded wrapping scan and eviction of the least recently used. */
module FakeDns {
  import opened Prelude
  import Bits

  /** A domain name as the octets of its UTF-8 text. */
  type Name = seq<Byte>

  const FAKE_IP_BASE: nat := 0xC612_0000
  const FAKE_IP_MASK: nat := 0xFFFE_0000
  const FAKE_IP_POOL_SIZE: nat := 131070
  const FALLBACK_IP: nat := 0xC612_0001

  function LowerByte(b: Byte): Byte {
    if 65 <= b <= 90 then b + 32 else b
  }

  function Lower(d: Name): (r: Name)
    ensures |r| == |d| && forall i :: 0 <= i < |d| ==> r[i] == LowerByte(d[i])
  {
    seq(|d|, i requires 0 <= i < |d| => LowerByte(d[i]))
  }

  /** One letter in either case. */
  predicate SameLetter(a: Byte, b: Byte) {
    a == b || (65 <= a <= 90 && b == a + 32) || (65 <= b <= 90 && a == b + 32)
  }

  /** Two names are one domain if and only if they differ in the case of ASCII letters at
      most, and the name kept has no capitals. */
  lemma SameDomain(a: Name, b: Name)
    ensures Lower(a) == Lower(b) <==> |a| == |b| && forall i :: 0 <= i < |a| ==> SameLetter(a[i], b[i])
    ensures forall i :: 0 <= i < |a| ==> !(65 <= Lower(a)[i] <= 90)
  {
    if |a| == |b| {
      assert forall i :: 0 <= i < |a| ==> (Lower(a)[i] == Lower(b)[i] <==> SameLetter(a[i], b[i]));
    }
  }

  lemma Pow2Values()
    ensures Bits.Pow2(15) == 0x8000 && Bits.Pow2(17) == 0x2_0000 && Bits.Pow2(32) == 0x1_0000_0000
  {
    assert Bits.Pow2(4) == 16;
    assert Bits.Pow2(8) == 256;
    assert Bits.Pow2(12) == 4096;
    assert Bits.Pow2(16) == 65536;
    assert Bits.Pow2(20) == 0x10_0000;
    assert Bits.Pow2(24) == 0x100_0000;
    assert Bits.Pow2(28) == 0x1000_0000;
  }

  /** The pool address with the given offset. */
  function AddressOf(offset: nat): nat {
    FAKE_IP_BASE + offset
  }

  /** The offset or-ed into the base is that address. */
  lemma AddressByOr(offset: nat)
    requires offset <= FAKE_IP_POOL_SIZE
    ensures Bits.Or(FAKE_IP_BASE, offset) == AddressOf(offset)
  {
    Pow2Values();
    Bits.ShiftBy17(25353);
    Bits.OrDisjoint(25353, 17, offset);
  }

  predicate IsFakeIp(ip: nat) {
    Bits.And(ip, FAKE_IP_MASK) == FAKE_IP_BASE
  }

  /** The mask test is membership of 198.18.0.0/15, for every 32-bit address. */
  lemma FakeRange(ip: nat)
    requires ip < 0x1_0000_0000
    ensures IsFakeIp(ip) <==> FAKE_IP_BASE <= ip < FAKE_IP_BASE + 0x2_0000
  {
    MaskClears(ip);
    BlockOf(ip, Bits.And(ip, FAKE_IP_MASK), Bits.ShiftRight(ip, 17));
  }

  lemma BlockOf(ip: nat, block: nat, index: nat)
    requires block == 0x2_0000 * index && block <= ip < block + 0x2_0000
    ensures block == FAKE_IP_BASE <==> FAKE_IP_BASE <= ip < FAKE_IP_BASE + 0x2_0000
  {
  }

  lemma MaskClears(ip: nat)
    requires ip < 0x1_0000_0000
    ensures var block := Bits.And(ip, FAKE_IP_MASK);
            block == 0x2_0000 * Bits.ShiftRight(ip, 17) && block <= ip < block + 0x2_0000
  {
    Pow2Values();
    Bits.ShiftBy17(0x7FFF);
    Bits.ShiftBy17(Bits.ShiftRight(ip, 17));
    Bits.AndHighMask(ip, 15, 17);
  }

  datatype Entry = Entry(domain: Name, created: nat, lastUsed: nat)

  datatype State = State(links: map<Name, nat>, entries: map<nat, Entry>,
                         next: nat, pool: nat, uses: nat, reported: bool, ttl: nat)

  /** The readings of the clock in one allocation: at the look at the domain's own entry,
      at each step of the scan, at each entry the sweep tests, and when the new entry is made. */
  datatype Clock = Clock(first: nat, at: nat -> nat, sweep: nat -> nat, last: nat)

  /** The clock does not go back: the sweep, in the step that wraps the counter, comes
      before the test of that step's candidate and of all later ones. */
  ghost predicate Runs(c: Clock, s: State) {
    && c.first <= c.last && (forall k :: c.first <= c.at(k) <= c.last)
    && (forall ip :: c.first <= c.sweep(ip) <= c.last)
    && (forall ip, k :: s.next + k >= s.pool ==> c.sweep(ip) <= c.at(k))
  }

  predicate Fresh(e: Entry, now: nat, ttl: nat) {
    now - e.created < ttl
  }

  predicate Holds(s: State, ip: nat, now: nat) {
    ip in s.entries && Fresh(s.entries[ip], now, s.ttl)
  }

  // ---- Invariant ----

  ghost predicate LinksResolve(s: State) {
    forall d :: d in s.links ==> s.links[d] in s.entries && s.entries[s.links[d]].domain == d
  }

  ghost predicate LiveLinked(s: State, now: nat) {
    forall ip :: Holds(s, ip, now) ==> s.entries[ip].domain in s.links && s.links[s.entries[ip].domain] == ip
  }

  ghost predicate InPool(s: State) {
    && 1 <= s.pool <= FAKE_IP_POOL_SIZE
    && 1 <= s.next <= s.pool
    && forall ip :: ip in s.entries ==> FAKE_IP_BASE + 1 <= ip <= FAKE_IP_BASE + s.pool
  }

  ghost predicate Stamped(s: State, now: nat) {
    && (forall ip :: ip in s.entries ==> s.entries[ip].lastUsed <= s.uses && s.entries[ip].created <= now)
    && (forall p, q :: p in s.entries && q in s.entries && p != q ==> s.entries[p].lastUsed != s.entries[q].lastUsed)
  }

  ghost predicate Inv(s: State, now: nat) {
    LinksResolve(s) && LiveLinked(s, now) && InPool(s) && Stamped(s, now)
  }

  /** Time only lets entries expire, so the invariant outlives every later clock reading. */
  lemma InvLater(s: State, now: nat, later: nat)
    requires Inv(s, now) && now <= later
    ensures Inv(s, later)
  {
    forall ip | Holds(s, ip, later) ensures Holds(s, ip, now) {}
  }

  /** Live domains and live addresses are in bijection, whatever stale entries remain. */
  lemma LiveBijection(s: State, now: nat)
    requires Inv(s, now)
    ensures forall p, q :: Holds(s, p, now) && Holds(s, q, now) && s.entries[p].domain == s.entries[q].domain ==> p == q
    ensures forall d :: d in s.links && Holds(s, s.links[d], now) ==> s.entries[s.links[d]].domain == d
    ensures forall ip :: Holds(s, ip, now) ==>
              s.entries[ip].domain in s.links && s.links[s.entries[ip].domain] == ip && IsFakeIp(ip)
  {
    forall ip | Holds(s, ip, now) ensures IsFakeIp(ip) { FakeRange(ip); }
  }

  // ---- Specification of the table operations ----

  function Initial(ttl: nat, poolSize: nat): (s: State)
    ensures Inv(s, 0)
  {
    var pool := if poolSize < 1 then 1 else if poolSize > FAKE_IP_POOL_SIZE then FAKE_IP_POOL_SIZE else poolSize;
    State(map[], map[], 1, pool, 0, false, ttl)
  }

  /** Entries at `ips` go, and with them exactly the links that point there. */
  function Drop(s: State, ips: set<nat>): State {
    s.(entries := s.entries - ips, links := map d | d in s.links && s.links[d] !in ips :: s.links[d])
  }

  /** The entries a sweep finds expired. */
  function Stale(s: State, sweep: nat -> nat): set<nat> {
    set ip | ip in s.entries && !Holds(s, ip, sweep(ip))
  }

  /** Offset reached after `k` steps of the wrapping counter, for `k` up to the pool size. */
  function OffsetAt(s: State, k: nat): (off: nat)
    requires 1 <= s.next <= s.pool && k <= s.pool
    ensures 1 <= off <= s.pool
  {
    if s.next + k <= s.pool then s.next + k else s.next + k - s.pool
  }

  /** Number of live addresses the scan steps over, starting from step `k`. */
  ghost function FirstFree(s: State, at: nat -> nat, k: nat): (r: nat)
    requires InPool(s) && k <= s.pool
    ensures k <= r <= s.pool
    ensures forall j :: k <= j < r ==> Holds(s, AddressOf(OffsetAt(s, j)), at(j))
    ensures r < s.pool ==> !Holds(s, AddressOf(OffsetAt(s, r)), at(r))
    decreases s.pool - k
  {
    if k == s.pool || !Holds(s, AddressOf(OffsetAt(s, k)), at(k)) then k else FirstFree(s, at, k + 1)
  }

  /** One step of the counter; a wrap sweeps out everything stale. */
  function Stepped(s: State, sweep: nat -> nat): State {
    var moved := s.(next := if s.next + 1 > s.pool then 1 else s.next + 1);
    if s.next + 1 > s.pool then Drop(moved, Stale(moved, sweep)) else moved
  }

  /** Table after `k` counter steps: a wrap sweeps out everything stale. */
  ghost function Scanned(s: State, sweep: nat -> nat, k: nat): State
    requires InPool(s) && k <= s.pool
  {
    (if s.next + k <= s.pool then s else Drop(s, Stale(s, sweep))).(next := OffsetAt(s, k))
  }

  ghost predicate IsLeastUsed(s: State, v: nat) {
    v in s.entries && forall ip :: ip in s.entries && ip != v ==> s.entries[v].lastUsed < s.entries[ip].lastUsed
  }

  function Issue(s: State, d: Name, ip: nat, now: nat): State {
    s.(uses := s.uses + 1, links := s.links[d := ip], entries := s.entries[ip := Entry(d, now, s.uses + 1)])
  }

  function Touch(s: State, ip: nat): State
    requires ip in s.entries
  {
    s.(uses := s.uses + 1, entries := s.entries[ip := s.entries[ip].(lastUsed := s.uses + 1)])
  }

  /** The domain already has a live address. */
  predicate Known(s: State, d: Name, now: nat) {
    d in s.links && Holds(s, s.links[d], now)
  }

  /** An expired link is cut before the scan; its entry stays behind. */
  function Unlinked(s: State, d: Name): State {
    if d in s.links then s.(uses := s.uses + 1, links := s.links - {d}) else s
  }

  /** How the table `u` becomes `t` when an address is found for a new domain: the first
      one not held in scan order, or, when all are held, the least used of those left. */
  ghost predicate Takes(u: State, c: Clock, t: State, ip: nat)
    requires InPool(u)
  {
    var k := FirstFree(u, c.at, 0);
    if k < u.pool then
      ip == AddressOf(OffsetAt(u, k)) && t == Drop(Scanned(u, c.sweep, k + 1), {ip}).(reported := false)
    else
      var left := Scanned(u, c.sweep, u.pool);
      IsLeastUsed(left, ip) && t == Drop(left, {ip}).(reported := true)
  }

  /** What allocating the lower-case domain `d` does to the table. */
  ghost predicate Allocates(s: State, d: Name, c: Clock, s': State, ip: nat)
    requires InPool(s)
  {
    if Known(s, d, c.first) then ip == s.links[d] && s' == Touch(s, ip)
    else exists t :: Takes(Unlinked(s, d), c, t, ip) && s' == Issue(t, d, ip, c.last)
  }

  ghost function LookedUp(s: State, ip: nat, now: nat): (State, Option<Name>) {
    if Holds(s, ip, now) then (Touch(s, ip), Some(s.entries[ip].domain))
    else (s.(uses := s.uses + 1), None)
  }

  // ---- The resolver ----

  class Resolver {
    var domainToIp: map<Name, nat>
    var ipToEntry: map<nat, Entry>
    var nextOffset: nat
    var poolSize: nat
    var uses: nat
    var exhaustionReported: bool
    var ttl: nat

    ghost function View(): State
      reads this
    {
      State(domainToIp, ipToEntry, nextOffset, poolSize, uses, exhaustionReported, ttl)
    }

    constructor Build(ttl: nat, poolSize: nat)
      ensures View() == Initial(ttl, poolSize)
    {
      domainToIp, ipToEntry := map[], map[];
      nextOffset, uses, exhaustionReported := 1, 0, false;
      this.poolSize := if poolSize < 1 then 1 else if poolSize > FAKE_IP_POOL_SIZE then FAKE_IP_POOL_SIZE else poolSize;
      this.ttl := ttl;
    }

    /** Removes the entry at `ip`; its domain's link goes only if it still points here. */
    method RemoveEntry(ip: nat) returns (removed: Option<Entry>)
      requires LinksResolve(View())
      modifies this`domainToIp, this`ipToEntry
      ensures View() == Drop(old(View()), {ip}) && LinksResolve(View())
      ensures removed == if ip in old(ipToEntry) then Some(old(ipToEntry)[ip]) else None
    {
      if ip !in ipToEntry {
        assert domainToIp == Drop(View(), {ip}).links;
        return None;
      }
      var entry := ipToEntry[ip];
      removed := Some(entry);
      ipToEntry := ipToEntry - {ip};
      if entry.domain in domainToIp && domainToIp[entry.domain] == ip {
        domainToIp := domainToIp - {entry.domain};
      }
      assert domainToIp == Drop(old(View()), {ip}).links;
    }

    method EvictExpired(sweep: nat -> nat)
      requires LinksResolve(View())
      modifies this`domainToIp, this`ipToEntry
      ensures View() == Drop(old(View()), Stale(old(View()), sweep)) && LinksResolve(View())
    {
      ghost var stale := Stale(View(), sweep);
      var expired := set ip | ip in ipToEntry && !(sweep(ip) - ipToEntry[ip].created < ttl);
      assert expired == stale;
      ghost var gone: set<nat> := {};
      assert View() == Drop(View(), {});
      while expired != {}
        invariant gone + expired == stale
        invariant View() == Drop(old(View()), gone) && LinksResolve(View())
        decreases expired
      {
        var ip :| ip in expired;
        ghost var before := gone;
        var _ := RemoveEntry(ip);
        gone := gone + {ip};
        DropTwice(old(View()), before, {ip});
        expired := expired - {ip};
      }
      assert gone == stale;
    }

    /** The entry with the smallest (last use, address). */
    method LeastUsed() returns (victim: Option<nat>)
      ensures victim.None? <==> ipToEntry == map[]
      ensures victim.Some? ==> victim.value in ipToEntry && forall ip :: ip in ipToEntry ==>
                ipToEntry[victim.value].lastUsed < ipToEntry[ip].lastUsed
                || (ipToEntry[victim.value].lastUsed == ipToEntry[ip].lastUsed && victim.value <= ip)
    {
      victim := None;
      var todo := ipToEntry.Keys;
      while todo != {}
        invariant todo <= ipToEntry.Keys
        invariant victim.None? ==> todo == ipToEntry.Keys
        invariant victim.Some? ==> victim.value in ipToEntry && forall ip :: ip in ipToEntry && ip !in todo ==>
                    ipToEntry[victim.value].lastUsed < ipToEntry[ip].lastUsed
                    || (ipToEntry[victim.value].lastUsed == ipToEntry[ip].lastUsed && victim.value <= ip)
        decreases todo
      {
        var ip :| ip in todo;
        todo := todo - {ip};
        if victim.None? || ipToEntry[ip].lastUsed < ipToEntry[victim.value].lastUsed
           || (ipToEntry[ip].lastUsed == ipToEntry[victim.value].lastUsed && ip < victim.value) {
          victim := Some(ip);
        }
      }
    }

    /** Takes the next pool address, wrapping the counter. */
    method NextCandidate(sweep: nat -> nat) returns (candidate: nat)
      requires LinksResolve(View()) && InPool(View())
      modifies this`domainToIp, this`ipToEntry, this`nextOffset
      ensures candidate == AddressOf(old(nextOffset))
      ensures View() == Stepped(old(View()), sweep) && LinksResolve(View())
    {
      AddressByOr(nextOffset);
      candidate := Bits.Or(FAKE_IP_BASE, nextOffset);
      nextOffset := nextOffset + 1;
      if nextOffset > poolSize {
        nextOffset := 1;
        EvictExpired(sweep);
      }
    }

    /** One step of the pass: the candidate, unless it is live. */
    method TryNext(ghost u: State, c: Clock, step: nat) returns (free: Option<nat>)
      requires InPool(u) && LinksResolve(u) && Runs(c, u) && step < u.pool
      requires View() == Scanned(u, c.sweep, step) && LinksResolve(View())
      modifies this`domainToIp, this`ipToEntry, this`nextOffset
      ensures LinksResolve(View())
      ensures var ip, passed := AddressOf(OffsetAt(u, step)), Scanned(u, c.sweep, step + 1);
              if Holds(u, ip, c.at(step)) then free == None && View() == passed
              else free == Some(ip) && View() == Drop(passed, {ip})
    {
      ScanStep(u, c, step);
      var candidate := NextCandidate(c.sweep);
      if candidate in ipToEntry && c.at(step) - ipToEntry[candidate].created < ttl { return None; }
      if candidate in ipToEntry {
        var _ := RemoveEntry(candidate);
      } else {
        DropNothing(View(), {candidate});
      }
      free := Some(candidate);
    }

    /** The bounded pass over the pool. */
    method Scan(c: Clock) returns (free: Option<nat>)
      requires LinksResolve(View()) && InPool(View()) && Runs(c, View())
      modifies this`domainToIp, this`ipToEntry, this`nextOffset
      ensures LinksResolve(View())
      ensures var u := old(View()); var k := FirstFree(u, c.at, 0);
              if k < u.pool then
                free == Some(AddressOf(OffsetAt(u, k))) && View() == Drop(Scanned(u, c.sweep, k + 1), {free.value})
              else
                free == None && View() == Scanned(u, c.sweep, u.pool)
    {
      ghost var u := View();
      ghost var first := FirstFree(u, c.at, 0);
      for step := 0 to poolSize
        invariant step <= first <= u.pool == poolSize
        invariant View() == Scanned(u, c.sweep, step) && LinksResolve(View())
      {
        FreeAt(u, c.at, step);
        free := TryNext(u, c, step);
        if free.Some? { return; }
      }
      free := None;
    }

    /** Picks an address for a domain that has none: a free one, or the victim's. */
    method TakeAddress(c: Clock) returns (ip: nat, evicted: Option<(Name, nat)>)
      requires Inv(View(), c.first) && Runs(c, View())
      modifies this`domainToIp, this`ipToEntry, this`nextOffset, this`exhaustionReported
      ensures Takes(old(View()), c, View(), ip)
      ensures evicted.Some? <==> View().reported && !old(View()).reported
      ensures evicted.Some? ==> Holds(old(View()), ip, c.first) && evicted.value == (old(View()).entries[ip].domain, ip)
    {
      ghost var u := View();
      evicted := None;
      var free := Scan(c);
      if free.Some? {
        exhaustionReported := false;
        return free.value, evicted;
      }
      ExhaustedScan(u, c);
      var victim := LeastUsed();
      if victim.Some? {
        ip := victim.value;
        assert IsLeastUsed(Scanned(u, c.sweep, u.pool), ip);
        var removed := RemoveEntry(ip);
        if removed.Some? && !exhaustionReported {
          exhaustionReported := true;
          evicted := Some((removed.value.domain, ip));
        }
      } else {
        assert false;
        ip := FALLBACK_IP;
      }
    }

    /** The domain's own address, if its entry is live; an expired link is cut. */
    method Reuse(d: Name, now: nat) returns (ip: Option<nat>)
      modifies this`domainToIp, this`ipToEntry, this`uses
      ensures var s := old(View());
              if Known(s, d, now) then ip == Some(s.links[d]) && View() == Touch(s, s.links[d])
              else ip == None && View() == Unlinked(s, d)
    {
      if d !in domainToIp { return None; }
      var own := domainToIp[d];
      uses := uses + 1;
      if own in ipToEntry && now - ipToEntry[own].created < ttl {
        ipToEntry := ipToEntry[own := ipToEntry[own].(lastUsed := uses)];
        return Some(own);
      }
      domainToIp := domainToIp - {d};
      ip := None;
    }

    method Install(d: Name, ip: nat, now: nat)
      modifies this`domainToIp, this`ipToEntry, this`uses
      ensures View() == Issue(old(View()), d, ip, now)
    {
      uses := uses + 1;
      domainToIp := domainToIp[d := ip];
      ipToEntry := ipToEntry[ip := Entry(d, now, uses)];
    }

    method Allocate(domain: Name, c: Clock) returns (ip: nat, evicted: Option<(Name, nat)>)
      requires Inv(View(), c.first) && Runs(c, View())
      modifies this
      ensures Allocates(old(View()), Lower(domain), c, View(), ip)
      ensures evicted.Some? <==> View().reported && !old(View()).reported
      ensures evicted.Some? ==> Holds(old(View()), ip, c.first) && evicted.value == (old(View()).entries[ip].domain, ip)
    {
      var d := Lower(domain);
      ghost var s := View();
      var own := Reuse(d, c.first);
      if own.Some? { return own.value, None; }
      UnlinkedInv(s, d, c.first);
      ip, evicted := TakeAddress(c);
      AllocatesByTaking(s, d, c, View(), ip);
      Install(d, ip, c.last);
    }

    method Lookup(ip: nat, now: nat) returns (domain: Option<Name>)
      modifies this`uses, this`ipToEntry
      ensures (View(), domain) == LookedUp(old(View()), ip, now)
    {
      uses := uses + 1;
      domain := None;
      if ip in ipToEntry && now - ipToEntry[ip].created < ttl {
        ipToEntry := ipToEntry[ip := ipToEntry[ip].(lastUsed := uses)];
        domain := Some(ipToEntry[ip].domain);
      }
    }
  }

  // ---- Proof support ----

  lemma AllocatesByTaking(s: State, d: Name, c: Clock, t: State, ip: nat)
    requires InPool(s) && !Known(s, d, c.first) && Takes(Unlinked(s, d), c, t, ip)
    ensures Allocates(s, d, c, Issue(t, d, ip, c.last), ip)
  {
  }

  /** The table after an allocation that had to take an address, before it was handed out. */
  lemma TakenBefore(s: State, d: Name, c: Clock, s': State, ip: nat) returns (t: State)
    requires Inv(s, c.first) && Runs(c, s) && !Known(s, d, c.first) && Allocates(s, d, c, s', ip)
    ensures var u := Unlinked(s, d);
            Inv(u, c.first) && Runs(c, u) && Takes(u, c, t, ip) && s' == Issue(t, d, ip, c.last)
  {
    UnlinkedInv(s, d, c.first);
    t :| Takes(Unlinked(s, d), c, t, ip) && s' == Issue(t, d, ip, c.last);
  }

  lemma DropTwice(s: State, a: set<nat>, b: set<nat>)
    ensures Drop(Drop(s, a), b) == Drop(s, a + b)
  {
    assert Drop(Drop(s, a), b).links == Drop(s, a + b).links;
    assert Drop(Drop(s, a), b).entries == Drop(s, a + b).entries;
  }

  lemma DropNothing(s: State, ips: set<nat>)
    requires LinksResolve(s) && ips !! s.entries.Keys
    ensures Drop(s, ips) == s
  {
    assert Drop(s, ips).links == s.links;
    assert Drop(s, ips).entries == s.entries;
  }

  /** Up to the first free address all are held. */
  lemma FreeAt(u: State, at: nat -> nat, step: nat)
    requires InPool(u) && step < u.pool && step <= FirstFree(u, at, 0)
    ensures Holds(u, AddressOf(OffsetAt(u, step)), at(step)) <==> step < FirstFree(u, at, 0)
  {
  }

  /** One counter step of the scan, and what it shows about the candidate it passes. */
  lemma ScanStep(u: State, c: Clock, k: nat)
    requires InPool(u) && LinksResolve(u) && k < u.pool && Runs(c, u)
    ensures Scanned(u, c.sweep, k + 1) == Stepped(Scanned(u, c.sweep, k), c.sweep)
    ensures var ip := AddressOf(OffsetAt(u, k));
            Holds(Scanned(u, c.sweep, k + 1), ip, c.at(k)) <==> Holds(u, ip, c.at(k))
    ensures LinksResolve(Scanned(u, c.sweep, k + 1))
  {
    var here := Scanned(u, c.sweep, k);
    assert here.next == OffsetAt(u, k);
    if u.next + k == u.pool {
      var moved := here.(next := 1);
      assert Stale(moved, c.sweep) == Stale(u, c.sweep);
    } else if u.next + k > u.pool {
      assert here.next + 1 <= u.pool;
    }
  }

  lemma UnlinkedInv(s: State, d: Name, now: nat)
    requires Inv(s, now) && !Known(s, d, now)
    ensures Inv(Unlinked(s, d), now)
  {
    forall ip | Holds(Unlinked(s, d), ip, now)
      ensures s.entries[ip].domain in Unlinked(s, d).links
    {
      assert Holds(s, ip, now);
    }
  }

  /** The scan passes every pool offset exactly once. */
  lemma ScanVisitsOnce(s: State, off: nat)
    requires InPool(s) && 1 <= off <= s.pool
    ensures exists k: nat :: k < s.pool && OffsetAt(s, k) == off
    ensures forall j: nat, k: nat :: j < s.pool && k < s.pool && OffsetAt(s, j) == OffsetAt(s, k) ==> j == k
  {
    assert OffsetAt(s, if off >= s.next then off - s.next else off + s.pool - s.next) == off;
  }

  /** A scan that found nothing saw every address live, and the last one it passed is
      still there, whatever the sweep took. */
  lemma ExhaustedScan(u: State, c: Clock)
    requires Inv(u, c.first) && Runs(c, u) && FirstFree(u, c.at, 0) == u.pool
    ensures forall off :: 1 <= off <= u.pool ==> Holds(u, AddressOf(off), c.first)
    ensures forall ip :: ip in u.entries ==> Holds(u, ip, c.first)
    ensures Scanned(u, c.sweep, u.pool).entries != map[]
  {
    forall off | 1 <= off <= u.pool ensures Holds(u, AddressOf(off), c.first) {
      ScanVisitsOnce(u, off);
      var k: nat :| k < u.pool && OffsetAt(u, k) == off;
      assert Holds(u, AddressOf(off), c.at(k));
    }
    forall ip | ip in u.entries ensures Holds(u, ip, c.first) {
      assert ip == AddressOf(ip - FAKE_IP_BASE);
    }
    var k := u.pool - 1;
    var ip := AddressOf(OffsetAt(u, k));
    assert Holds(u, ip, c.at(k));
    assert c.sweep(ip) <= c.at(k);
    assert Holds(u, ip, c.sweep(ip));
    assert ip in Scanned(u, c.sweep, u.pool).entries;
  }

  // ---- What an allocation guarantees ----

  /** Dropping entries with their links keeps the invariant. */
  lemma DropInv(s: State, ips: set<nat>, now: nat)
    requires Inv(s, now)
    ensures Inv(Drop(s, ips), now)
  {
    forall ip | Holds(Drop(s, ips), ip, now) ensures Holds(s, ip, now) {}
  }

  lemma ScannedInv(u: State, c: Clock, k: nat)
    requires Inv(u, c.first) && k <= u.pool && Runs(c, u)
    ensures Inv(Scanned(u, c.sweep, k), c.last)
    ensures forall ip :: Holds(u, ip, c.last) ==>
              Holds(Scanned(u, c.sweep, k), ip, c.last) && Scanned(u, c.sweep, k).entries[ip] == u.entries[ip]
  {
    InvLater(u, c.first, c.last);
    DropInv(u, Stale(u, c.sweep), c.last);
    forall ip | Holds(Scanned(u, c.sweep, k), ip, c.last) ensures Holds(u, ip, c.last) {}
    forall ip | Holds(u, ip, c.last) ensures Holds(u, ip, c.sweep(ip)) {}
  }

  /** Handing a free address to an unlinked domain keeps the invariant. */
  lemma IssueInv(t: State, d: Name, ip: nat, now: nat)
    requires Inv(t, now) && ip !in t.entries && d !in t.links
    requires FAKE_IP_BASE + 1 <= ip <= FAKE_IP_BASE + t.pool
    ensures Inv(Issue(t, d, ip, now), now)
  {
    var s' := Issue(t, d, ip, now);
    forall q | Holds(s', q, now) ensures s'.entries[q].domain in s'.links && s'.links[s'.entries[q].domain] == q {
      if q != ip {
        assert Holds(t, q, now);
        assert s'.entries[q].domain != d;
      }
    }
  }

  lemma TouchInv(s: State, ip: nat, now: nat)
    requires Inv(s, now) && ip in s.entries
    ensures Inv(Touch(s, ip), now)
  {
    forall q | Holds(Touch(s, ip), q, now) ensures Holds(s, q, now) {}
  }

  /** Every allocation keeps the invariant and answers with a pool address now
      linked both ways with the domain: inside 198.18.0.0/15, and neither the
      network nor the broadcast address. */
  lemma AllocatesInv(s: State, d: Name, c: Clock, s': State, ip: nat)
    requires Inv(s, c.first) && Runs(c, s) && Allocates(s, d, c, s', ip)
    ensures Inv(s', c.last) && s'.pool == s.pool && s'.ttl == s.ttl
    ensures FAKE_IP_BASE < ip <= FAKE_IP_BASE + s.pool < FAKE_IP_BASE + 0x1_FFFF && IsFakeIp(ip)
    ensures d in s'.links && s'.links[d] == ip && ip in s'.entries && s'.entries[ip].domain == d
    ensures s'.entries[ip].lastUsed == s'.uses
  {
    if Known(s, d, c.first) {
      InvLater(s, c.first, c.last);
      TouchInv(s, ip, c.last);
    } else {
      var u := Unlinked(s, d);
      var t := TakenBefore(s, d, c, s', ip);
      TakesInv(u, c, t, ip);
      IssueInv(t, d, ip, c.last);
    }
    FakeRange(ip);
  }

  lemma TakesInv(u: State, c: Clock, t: State, ip: nat)
    requires Inv(u, c.first) && Runs(c, u) && Takes(u, c, t, ip)
    ensures Inv(t, c.last) && ip !in t.entries && t.links.Keys <= u.links.Keys
    ensures t.pool == u.pool && t.ttl == u.ttl && t.uses == u.uses
    ensures FAKE_IP_BASE + 1 <= ip <= FAKE_IP_BASE + u.pool
  {
    var steps := TakenAfter(u, c, t, ip);
    var swept := Scanned(u, c.sweep, steps);
    ScannedInv(u, c, steps);
    DropInv(swept, {ip}, c.last);
    ReportInv(Drop(swept, {ip}), t.reported, c.last);
  }

  /** The table an address is taken from has seen so many steps of the scan. */
  lemma TakenAfter(u: State, c: Clock, t: State, ip: nat) returns (steps: nat)
    requires InPool(u) && Takes(u, c, t, ip)
    ensures steps <= u.pool && t == Drop(Scanned(u, c.sweep, steps), {ip}).(reported := t.reported)
    ensures FAKE_IP_BASE + 1 <= ip <= FAKE_IP_BASE + u.pool
    ensures || (exists k :: !Holds(u, ip, c.at(k)))
            || (FirstFree(u, c.at, 0) == u.pool && IsLeastUsed(Scanned(u, c.sweep, u.pool), ip))
  {
    var k := FirstFree(u, c.at, 0);
    steps := if k < u.pool then k + 1 else u.pool;
  }

  /** Taking an address changes no other live entry, and takes one that stays live only
      when the scan found all of them live, from the least used of those left. */
  lemma TakesFrame(u: State, c: Clock, t: State, ip: nat)
    requires Inv(u, c.first) && Runs(c, u) && Takes(u, c, t, ip)
    ensures forall q :: Holds(u, q, c.last) && q != ip ==> q in t.entries && t.entries[q] == u.entries[q]
    ensures forall q :: q in t.entries ==> q in u.entries && t.entries[q] == u.entries[q]
    ensures Holds(u, ip, c.last) ==> FirstFree(u, c.at, 0) == u.pool && IsLeastUsed(Scanned(u, c.sweep, u.pool), ip)
  {
    var steps := TakenAfter(u, c, t, ip);
    ScannedFrame(u, c, steps);
    assert t.entries == Scanned(u, c.sweep, steps).entries - {ip};
    if k :| !Holds(u, ip, c.at(k)) { assert c.at(k) <= c.last; }
  }

  lemma ScannedFrame(u: State, c: Clock, k: nat)
    requires InPool(u) && k <= u.pool && Runs(c, u)
    ensures var t := Scanned(u, c.sweep, k);
            && (forall q :: Holds(u, q, c.last) ==> q in t.entries && t.entries[q] == u.entries[q])
            && (forall q :: q in t.entries ==> q in u.entries && t.entries[q] == u.entries[q])
  {
    forall q | Holds(u, q, c.last) ensures Holds(u, q, c.sweep(q)) {}
  }

  lemma ReportInv(s: State, reported: bool, now: nat)
    requires Inv(s, now)
    ensures Inv(s.(reported := reported), now)
  {
    var t := s.(reported := reported);
    forall q | Holds(t, q, now) ensures Holds(s, q, now) {}
    assert InPool(t) && Stamped(t, now) && LinksResolve(t);
  }

  /** An allocation leaves every other live entry, its stamp and its link alone. */
  lemma AllocatesKeepsOthers(s: State, d: Name, c: Clock, s': State, ip: nat, q: nat)
    requires Inv(s, c.first) && Runs(c, s) && Allocates(s, d, c, s', ip)
    requires Holds(s, q, c.last) && q != ip
    ensures Holds(s', q, c.last) && s'.entries[q] == s.entries[q]
    ensures var d' := s.entries[q].domain; d' in s'.links && s'.links[d'] == q
  {
    AllocatesInv(s, d, c, s', ip);
    if !Known(s, d, c.first) {
      var u := Unlinked(s, d);
      var t := TakenBefore(s, d, c, s', ip);
      assert Holds(u, q, c.last);
      TakesFrame(u, c, t, ip);
    }
  }

  /** An address that stays live changes hands only when the scan found every pool address
      live, and then its last use is strictly the oldest of all entries still live. */
  lemma EvictsOnlyLeastUsed(s: State, d: Name, c: Clock, s': State, ip: nat)
    requires Inv(s, c.first) && Runs(c, s) && Allocates(s, d, c, s', ip)
    requires Holds(s, ip, c.last) && s.entries[ip].domain != d
    ensures forall off :: 1 <= off <= s.pool ==> Holds(s, AddressOf(off), c.first)
    ensures forall q :: Holds(s, q, c.last) && q != ip ==> s.entries[ip].lastUsed < s.entries[q].lastUsed
    ensures c.first == c.last ==> IsLeastUsed(s, ip)
  {
    if Known(s, d, c.first) {
      assert false;
    } else {
      var u := Unlinked(s, d);
      var t := TakenBefore(s, d, c, s', ip);
      assert Holds(u, ip, c.last);
      TakesFrame(u, c, t, ip);
      ExhaustedScan(u, c);
      ScannedInv(u, c, u.pool);
      forall off | 1 <= off <= s.pool ensures Holds(s, AddressOf(off), c.first) {
        assert Holds(u, AddressOf(off), c.first);
      }
      forall q | Holds(s, q, c.last) && q != ip ensures s.entries[ip].lastUsed < s.entries[q].lastUsed {
        assert Holds(u, q, c.last);
      }
      forall q | q in s.entries ensures Holds(s, q, c.first) {
        assert Holds(u, q, c.first);
      }
    }
  }

  /** Looking up moves only usage stamps. */
  lemma LookedUpInv(s: State, ip: nat, now: nat)
    requires Inv(s, now)
    ensures Inv(LookedUp(s, ip, now).0, now)
    ensures LookedUp(s, ip, now).0.links == s.links && LookedUp(s, ip, now).0.entries.Keys == s.entries.Keys
  {
    if Holds(s, ip, now) {
      TouchInv(s, ip, now);
    } else {
      var s' := s.(uses := s.uses + 1);
      forall q | Holds(s', q, now) ensures Holds(s, q, now) {}
      assert LinksResolve(s') && InPool(s') && Stamped(s', now);
    }
  }

  /** After an allocation the address resolves back to the domain until the entry expires. */
  lemma LookupAfterAllocate(s: State, d: Name, c: Clock, s': State, ip: nat, later: nat)
    requires Inv(s, c.first) && Runs(c, s) && Allocates(s, d, c, s', ip)
    requires c.last <= later
    ensures LookedUp(s', ip, later).1 == if later - s'.entries[ip].created < s'.ttl then Some(d) else None
  {
    AllocatesInv(s, d, c, s', ip);
  }

  // ---- Whole runs ----

  datatype Call = Alloc(domain: Name, clock: Clock, given: nat) | Look(ip: nat, at: nat, answer: Option<Name>)

  /** The call's first reading of the clock. */
  function Begins(call: Call): nat {
    match call
    case Alloc(_, clock, _) => clock.first
    case Look(_, at, _) => at
  }

  /** The call's last reading of the clock. */
  function Finishes(call: Call): nat {
    match call
    case Alloc(_, clock, _) => clock.last
    case Look(_, at, _) => at
  }

  ghost predicate Step(s: State, call: Call, s': State) {
    Inv(s, Begins(call)) ==>
      match call
      case Alloc(domain, clock, given) => Runs(clock, s) && Allocates(s, Lower(domain), clock, s', given)
      case Look(ip, at, answer) => (s', answer) == LookedUp(s, ip, at)
  }

  function ClockBefore(calls: seq<Call>, k: nat): nat
    requires k <= |calls|
  {
    if k == 0 then 0 else Finishes(calls[k - 1])
  }

  /** A run from a new resolver, with a clock that never goes back. */
  ghost predicate IsRun(ttl: nat, pool: nat, states: seq<State>, calls: seq<Call>) {
    && |states| == |calls| + 1
    && states[0] == Initial(ttl, pool)
    && forall i :: 0 <= i < |calls| ==>
         ClockBefore(calls, i) <= Begins(calls[i]) && Step(states[i], calls[i], states[i + 1])
  }

  /** The domain to which the calls before `k` gave `ip` last. */
  function LastGiven(calls: seq<Call>, k: nat, ip: nat): Option<Name>
    requires k <= |calls|
  {
    if k == 0 then None
    else if calls[k - 1].Alloc? && calls[k - 1].given == ip then Some(Lower(calls[k - 1].domain))
    else LastGiven(calls, k - 1, ip)
  }

  /** When the calls before `k` last made the entry at `ip`: an allocation that gives `ip`
      makes it anew unless the same domain had it already and it was not yet `ttl` old. */
  function Creation(calls: seq<Call>, k: nat, ip: nat, ttl: nat): Option<nat>
    requires k <= |calls|
  {
    if k == 0 then None
    else
      var before := Creation(calls, k - 1, ip, ttl);
      match calls[k - 1]
      case Look(_, _, _) => before
      case Alloc(domain, clock, given) =>
        if given != ip then before
        else if LastGiven(calls, k - 1, ip) == Some(Lower(domain)) && Younger(before, clock.first, ttl) then before
        else Some(clock.last)
  }

  predicate Younger(created: Option<nat>, now: nat, ttl: nat) {
    created.Some? && now - created.value < ttl
  }

  /** The entry that the calls before `k` made at `ip` is less than `ttl` old. */
  predicate Live(calls: seq<Call>, k: nat, ip: nat, now: nat, ttl: nat)
    requires k <= |calls|
  {
    Younger(Creation(calls, k, ip, ttl), now, ttl)
  }

  /** The address that the call gave or answered for. */
  function UsedBy(call: Call): Option<nat> {
    match call
    case Alloc(_, _, given) => Some(given)
    case Look(ip, _, answer) => if answer.Some? then Some(ip) else None
  }

  /** The number of the last call before `k` that gave `ip` or answered for it. */
  function LastUse(calls: seq<Call>, k: nat, ip: nat): (n: nat)
    requires k <= |calls|
    ensures n <= k
  {
    if k == 0 then 0 else if UsedBy(calls[k - 1]) == Some(ip) then k else LastUse(calls, k - 1, ip)
  }

  /** Entries are the creations of the calls; one that is gone had expired. */
  ghost predicate Tied(s: State, calls: seq<Call>, k: nat)
    requires k <= |calls|
  {
    forall ip {:trigger Creation(calls, k, ip, s.ttl)} ::
      if ip in s.entries
      then Creation(calls, k, ip, s.ttl) == Some(s.entries[ip].created)
           && LastGiven(calls, k, ip) == Some(s.entries[ip].domain)
      else !Younger(Creation(calls, k, ip, s.ttl), ClockBefore(calls, k), s.ttl)
  }

  /** Stamps are in the order of the last uses. */
  ghost predicate Ordered(s: State, calls: seq<Call>, k: nat)
    requires k <= |calls|
  {
    forall p, q :: p in s.entries && q in s.entries && s.entries[p].lastUsed < s.entries[q].lastUsed ==>
      LastUse(calls, k, p) < LastUse(calls, k, q)
  }

  /** What a call leaves alone, and what it stamps. */
  lemma StepFrame(s: State, call: Call, s': State)
    requires Inv(s, Begins(call)) && Step(s, call, s')
    ensures Inv(s', Finishes(call)) && s'.ttl == s.ttl && s'.pool == s.pool
    ensures forall q :: q in s'.entries && UsedBy(call) != Some(q) ==> q in s.entries && s'.entries[q] == s.entries[q]
    ensures forall q :: Holds(s, q, Finishes(call)) ==> q in s'.entries
    ensures forall x :: UsedBy(call) == Some(x) ==> x in s'.entries && s'.entries[x].lastUsed > s.uses
  {
    match call {
      case Alloc(domain, clock, given) =>
        AllocatesInv(s, Lower(domain), clock, s', given);
        AllocatesFrame(s, Lower(domain), clock, s', given);
        forall q | Holds(s, q, clock.last) ensures q in s'.entries {
          if q != given { AllocatesKeepsOthers(s, Lower(domain), clock, s', given, q); }
        }
      case Look(ip, at, answer) =>
        LookedUpInv(s, ip, at);
    }
  }

  /** An allocation touches no entry other than the one it hands out; that one it makes
      anew, unless the domain has it already. */
  lemma AllocatesFrame(s: State, d: Name, c: Clock, s': State, ip: nat)
    requires Inv(s, c.first) && Runs(c, s) && Allocates(s, d, c, s', ip)
    ensures forall q :: q in s'.entries && q != ip ==> q in s.entries && s'.entries[q] == s.entries[q]
    ensures ip in s'.entries && s'.entries[ip].lastUsed > s.uses && s'.entries[ip].domain == d
    ensures var own := Holds(s, ip, c.first) && s.entries[ip].domain == d;
            s'.entries[ip].created == if own then s.entries[ip].created else c.last
  {
    if Known(s, d, c.first) {
      assert Holds(s, ip, c.first) && s.entries[ip].domain == d;
    } else {
      NewFrame(s, d, c, s', ip);
    }
  }

  lemma NewFrame(s: State, d: Name, c: Clock, s': State, ip: nat)
    requires Inv(s, c.first) && Runs(c, s) && Allocates(s, d, c, s', ip) && !Known(s, d, c.first)
    ensures forall q :: q in s'.entries && q != ip ==> q in s.entries && s'.entries[q] == s.entries[q]
    ensures ip in s'.entries && s'.entries[ip] == Entry(d, c.last, s'.uses) && s'.uses > s.uses
    ensures !(Holds(s, ip, c.first) && s.entries[ip].domain == d)
  {
    assert LiveLinked(s, c.first);
    var u := Unlinked(s, d);
    var t := TakenBefore(s, d, c, s', ip);
    TakenFrame(u, c, t, ip);
    assert s'.entries == t.entries[ip := Entry(d, c.last, t.uses + 1)];
  }

  lemma TakenFrame(u: State, c: Clock, t: State, ip: nat)
    requires Inv(u, c.first) && Runs(c, u) && Takes(u, c, t, ip)
    ensures forall q :: q in t.entries ==> q in u.entries && t.entries[q] == u.entries[q]
    ensures t.uses == u.uses
  {
    TakesFrame(u, c, t, ip);
    TakesInv(u, c, t, ip);
  }

  lemma TiedNext(s: State, calls: seq<Call>, k: nat, s': State)
    requires k < |calls| && Tied(s, calls, k) && ClockBefore(calls, k) <= Begins(calls[k]) <= Finishes(calls[k])
    requires Inv(s, Begins(calls[k])) && Step(s, calls[k], s')
    ensures Tied(s', calls, k + 1)
  {
    StepFrame(s, calls[k], s');
    forall ip ensures
      if ip in s'.entries
      then Creation(calls, k + 1, ip, s.ttl) == Some(s'.entries[ip].created)
           && LastGiven(calls, k + 1, ip) == Some(s'.entries[ip].domain)
      else !Younger(Creation(calls, k + 1, ip, s.ttl), ClockBefore(calls, k + 1), s.ttl)
    {
      TiedAt(s, calls, k, s', ip);
    }
  }

  lemma TiedAt(s: State, calls: seq<Call>, k: nat, s': State, ip: nat)
    requires k < |calls| && ClockBefore(calls, k) <= Begins(calls[k]) <= Finishes(calls[k])
    requires Inv(s, Begins(calls[k])) && Step(s, calls[k], s')
    requires var made := Creation(calls, k, ip, s.ttl);
             if ip in s.entries
             then made == Some(s.entries[ip].created) && LastGiven(calls, k, ip) == Some(s.entries[ip].domain)
             else !Younger(made, ClockBefore(calls, k), s.ttl)
    ensures var made := Creation(calls, k + 1, ip, s.ttl);
            if ip in s'.entries
            then made == Some(s'.entries[ip].created) && LastGiven(calls, k + 1, ip) == Some(s'.entries[ip].domain)
            else !Younger(made, ClockBefore(calls, k + 1), s.ttl)
  {
    var call := calls[k];
    StepFrame(s, call, s');
    if call.Alloc? && call.given == ip {
      AllocatesFrame(s, Lower(call.domain), call.clock, s', ip);
    } else if ip !in s'.entries && ip in s.entries {
      assert !Holds(s, ip, Finishes(call));
    }
  }

  lemma OrderedNext(s: State, calls: seq<Call>, k: nat, s': State)
    requires k < |calls| && Ordered(s, calls, k) && Inv(s, Begins(calls[k])) && Step(s, calls[k], s')
    ensures Ordered(s', calls, k + 1)
  {
    StepFrame(s, calls[k], s');
    var used := UsedBy(calls[k]);
    forall p, q | p in s'.entries && q in s'.entries && s'.entries[p].lastUsed < s'.entries[q].lastUsed
      ensures LastUse(calls, k + 1, p) < LastUse(calls, k + 1, q)
    {
      assert used != Some(p);
    }
  }

  /** In every reachable state the table is consistent, its entries are those the calls
      made and did not let expire, and its stamps are in the order of their last uses. */
  lemma {:induction false} RunInv(ttl: nat, pool: nat, states: seq<State>, calls: seq<Call>, k: nat)
    requires IsRun(ttl, pool, states, calls) && k <= |calls|
    ensures Inv(states[k], ClockBefore(calls, k)) && states[k].ttl == ttl && states[k].pool == Initial(ttl, pool).pool
    ensures Tied(states[k], calls, k) && Ordered(states[k], calls, k)
  {
    if k == 0 {
      NothingTied(Initial(ttl, pool), calls);
    } else {
      RunInv(ttl, pool, states, calls, k - 1);
      assert Step(states[k - 1], calls[k - 1], states[k]);
      StepKeeps(states[k - 1], calls, k - 1, states[k]);
    }
  }

  lemma NothingTied(s: State, calls: seq<Call>)
    requires s.entries == map[]
    ensures Tied(s, calls, 0) && Ordered(s, calls, 0)
  {
  }

  lemma StepKeeps(s: State, calls: seq<Call>, k: nat, s': State)
    requires k < |calls| && ClockBefore(calls, k) <= Begins(calls[k]) && Step(s, calls[k], s')
    requires Inv(s, ClockBefore(calls, k)) && Tied(s, calls, k) && Ordered(s, calls, k)
    ensures Inv(s', ClockBefore(calls, k + 1)) && s'.ttl == s.ttl && s'.pool == s.pool
    ensures Tied(s', calls, k + 1) && Ordered(s', calls, k + 1) && Begins(calls[k]) <= Finishes(calls[k])
  {
    InvLater(s, ClockBefore(calls, k), Begins(calls[k]));
    StepFrame(s, calls[k], s');
    TiedNext(s, calls, k, s');
    OrderedNext(s, calls, k, s');
  }

  /** An entry is live in the table when the calls say so. */
  lemma RunLive(ttl: nat, pool: nat, states: seq<State>, calls: seq<Call>, k: nat, ip: nat, now: nat)
    requires IsRun(ttl, pool, states, calls) && k <= |calls| && ClockBefore(calls, k) <= now
    ensures Live(calls, k, ip, now, ttl) <==> Holds(states[k], ip, now)
    ensures Holds(states[k], ip, now) ==> LastGiven(calls, k, ip) == Some(states[k].entries[ip].domain)
  {
    RunInv(ttl, pool, states, calls, k);
    assert ip in states[k].entries ==> Creation(calls, k, ip, ttl) == Some(states[k].entries[ip].created);
  }

  /** The table at the start of a call, and the call. */
  lemma RunStep(ttl: nat, pool: nat, states: seq<State>, calls: seq<Call>, k: nat)
    requires IsRun(ttl, pool, states, calls) && k < |calls|
    ensures Inv(states[k], Begins(calls[k])) && Step(states[k], calls[k], states[k + 1])
    ensures ClockBefore(calls, k) <= Begins(calls[k]) <= Finishes(calls[k]) && Ordered(states[k], calls, k)
    ensures states[k].ttl == ttl && states[k].pool == Initial(ttl, pool).pool
  {
    RunInv(ttl, pool, states, calls, k);
    InvLater(states[k], ClockBefore(calls, k), Begins(calls[k]));
    assert Step(states[k], calls[k], states[k + 1]);
    StepKeeps(states[k], calls, k, states[k + 1]);
  }

  /** Over every run: each address handed out is a usable pool address, and a lookup
      answers if and only if the entry last made at that address is less than `ttl` old,
      with the domain to which the address was given last. */
  lemma RunAnswers(ttl: nat, pool: nat, states: seq<State>, calls: seq<Call>, k: nat)
    requires IsRun(ttl, pool, states, calls) && k < |calls|
    ensures calls[k].Alloc? ==> 0xC612_0000 < calls[k].given < 0xC613_FFFF
    ensures calls[k].Look? ==>
              var ip, at := calls[k].ip, calls[k].at;
              calls[k].answer == if Live(calls, k, ip, at, ttl) then LastGiven(calls, k, ip) else None
  {
    RunStep(ttl, pool, states, calls, k);
    match calls[k] {
      case Alloc(domain, clock, given) =>
        AllocatesInv(states[k], Lower(domain), clock, states[k + 1], given);
      case Look(ip, at, answer) =>
        RunLive(ttl, pool, states, calls, k, ip, at);
    }
  }

  /** Over every run: a domain whose address is less than `ttl` old gets that address again. */
  lemma RunReuses(ttl: nat, pool: nat, states: seq<State>, calls: seq<Call>, k: nat, ip: nat)
    requires IsRun(ttl, pool, states, calls) && k < |calls| && calls[k].Alloc?
    requires LastGiven(calls, k, ip) == Some(Lower(calls[k].domain))
    requires Live(calls, k, ip, calls[k].clock.first, ttl)
    ensures calls[k].given == ip
  {
    RunStep(ttl, pool, states, calls, k);
    RunLive(ttl, pool, states, calls, k, ip, calls[k].clock.first);
  }

  /** Over every run: an address less than `ttl` old goes to another domain only when every
      address of the pool was that young, and then it is the one whose last use, by an
      allocation or by a lookup that answered, is the oldest. */
  lemma RunEvicts(ttl: nat, pool: nat, states: seq<State>, calls: seq<Call>, k: nat)
    requires IsRun(ttl, pool, states, calls) && k < |calls| && calls[k].Alloc?
    requires Live(calls, k, calls[k].given, calls[k].clock.last, ttl)
    requires LastGiven(calls, k, calls[k].given) != Some(Lower(calls[k].domain))
    ensures forall off :: 1 <= off <= Initial(ttl, pool).pool ==>
              Live(calls, k, AddressOf(off), calls[k].clock.first, ttl)
    ensures forall q :: Live(calls, k, q, calls[k].clock.last, ttl) && q != calls[k].given ==>
              LastUse(calls, k, calls[k].given) < LastUse(calls, k, q)
  {
    var pool' := Initial(ttl, pool).pool;
    forall off: nat | 1 <= off <= pool' ensures Live(calls, k, AddressOf(off), calls[k].clock.first, ttl) {
      EvictedFromFull(ttl, pool, states, calls, k, off);
    }
    forall q | Live(calls, k, q, calls[k].clock.last, ttl) && q != calls[k].given
      ensures LastUse(calls, k, calls[k].given) < LastUse(calls, k, q)
    {
      EvictedIsOldest(ttl, pool, states, calls, k, q);
    }
  }

  lemma EvictedFromFull(ttl: nat, pool: nat, states: seq<State>, calls: seq<Call>, k: nat, off: nat)
    requires IsRun(ttl, pool, states, calls) && k < |calls| && calls[k].Alloc?
    requires Live(calls, k, calls[k].given, calls[k].clock.last, ttl)
    requires LastGiven(calls, k, calls[k].given) != Some(Lower(calls[k].domain))
    requires 1 <= off <= Initial(ttl, pool).pool
    ensures Live(calls, k, AddressOf(off), calls[k].clock.first, ttl)
  {
    RunStep(ttl, pool, states, calls, k);
    var s, c, ip := states[k], calls[k].clock, calls[k].given;
    RunLive(ttl, pool, states, calls, k, ip, c.last);
    RunLive(ttl, pool, states, calls, k, AddressOf(off), c.first);
    EvictsOnlyLeastUsed(s, Lower(calls[k].domain), c, states[k + 1], ip);
  }

  lemma EvictedIsOldest(ttl: nat, pool: nat, states: seq<State>, calls: seq<Call>, k: nat, q: nat)
    requires IsRun(ttl, pool, states, calls) && k < |calls| && calls[k].Alloc?
    requires Live(calls, k, calls[k].given, calls[k].clock.last, ttl)
    requires LastGiven(calls, k, calls[k].given) != Some(Lower(calls[k].domain))
    requires Live(calls, k, q, calls[k].clock.last, ttl) && q != calls[k].given
    ensures LastUse(calls, k, calls[k].given) < LastUse(calls, k, q)
  {
    RunStep(ttl, pool, states, calls, k);
    var s, c, ip := states[k], calls[k].clock, calls[k].given;
    RunLive(ttl, pool, states, calls, k, ip, c.last);
    RunLive(ttl, pool, states, calls, k, q, c.last);
    EvictsOnlyLeastUsed(s, Lower(calls[k].domain), c, states[k + 1], ip);
    OrderedAt(s, calls, k, ip, q);
  }

  lemma OrderedAt(s: State, calls: seq<Call>, k: nat, p: nat, q: nat)
    requires k <= |calls| && Ordered(s, calls, k)
    requires p in s.entries && q in s.entries && s.entries[p].lastUsed < s.entries[q].lastUsed
    ensures LastUse(calls, k, p) < LastUse(calls, k, q)
  {
  }

  // ---- Where the scan goes ----

  /** The offset lies on the way round from `start` to `end`. */
  predicate OnTheWay(start: nat, off: nat, end: nat, pool: nat) {
    1 <= off <= pool &&
    if start <= end then start <= off < end else off >= start || off < end
  }

  /** A new address is the next one round the pool that is not live, all those passed being
      live, and the next search goes on behind it. When none is left the search comes back to
      where it began. The shortage is marked when every address was live to the end, and only
      when every one was live at the start. */
  lemma AllocatesNext(s: State, d: Name, c: Clock, s': State, ip: nat)
    requires Inv(s, c.first) && Runs(c, s) && Allocates(s, d, c, s', ip) && !Known(s, d, c.first)
    ensures !s'.reported ==> NextFound(s, c, s', ip)
    ensures s'.reported ==> s'.next == s.next && AllHeld(s, c.first)
  {
    var u := Unlinked(s, d);
    var t := TakenNext(s, d, c, s', ip);
    if t.reported {
      SameHeld(u, s, c.first);
    } else {
      SameFound(u, s, c, t, s', ip);
    }
  }

  lemma TakenNext(s: State, d: Name, c: Clock, s': State, ip: nat) returns (t: State)
    requires Inv(s, c.first) && Runs(c, s) && Allocates(s, d, c, s', ip) && !Known(s, d, c.first)
    ensures t.next == s'.next && t.reported == s'.reported
    ensures var u := Unlinked(s, d); if t.reported then t.next == u.next
            && AllHeld(u, c.first) else NextFound(u, c, t, ip)
  {
    t := TakenBefore(s, d, c, s', ip);
    TakesNext(Unlinked(s, d), c, t, ip);
  }

  ghost predicate AllHeld(s: State, now: nat) {
    forall off :: 1 <= off <= s.pool ==> Holds(s, AddressOf(off), now)
  }

  lemma SameHeld(u: State, s: State, now: nat)
    requires AllHeld(u, now) && u.entries == s.entries && u.ttl == s.ttl && u.pool == s.pool
    ensures AllHeld(s, now)
  {
    forall off: nat | 1 <= off <= s.pool ensures Holds(s, AddressOf(off), now) {
      assert Holds(u, AddressOf(off), now);
    }
  }

  lemma SameFound(u: State, s: State, c: Clock, t: State, s': State, ip: nat)
    requires NextFound(u, c, t, ip) && t.next == s'.next
    requires u.entries == s.entries && u.ttl == s.ttl && u.pool == s.pool && u.next == s.next
    ensures NextFound(s, c, s', ip)
  {
    var end: nat := if s'.next <= 1 then s.pool else s'.next - 1;
    forall off: nat | OnTheWay(s.next, off, end, s.pool) ensures Holds(s, AddressOf(off), c.first) {
      assert Holds(u, AddressOf(off), c.first);
    }
  }

  lemma TakesNext(u: State, c: Clock, t: State, ip: nat)
    requires Inv(u, c.first) && Runs(c, u) && Takes(u, c, t, ip)
    ensures !t.reported ==> NextFound(u, c, t, ip)
    ensures t.reported ==> t.next == u.next && AllHeld(u, c.first)
  {
    var k := FirstFree(u, c.at, 0);
    if k < u.pool { FoundNext(u, c, t, ip); } else { ExhaustedScan(u, c); }
  }

  lemma FoundNext(u: State, c: Clock, t: State, ip: nat)
    requires Inv(u, c.first) && Runs(c, u) && Takes(u, c, t, ip) && FirstFree(u, c.at, 0) < u.pool
    ensures NextFound(u, c, t, ip) && !t.reported
  {
    var k := FirstFree(u, c.at, 0);
    PassedLive(u, c, k);
    FoundAt(u, c, t, ip, k);
    OffsetNext(u, k);
  }

  lemma FoundAt(u: State, c: Clock, t: State, ip: nat, k: nat)
    requires InPool(u) && Runs(c, u) && Takes(u, c, t, ip) && k == FirstFree(u, c.at, 0) < u.pool
    ensures ip == AddressOf(OffsetAt(u, k)) && !Holds(u, ip, c.last)
    ensures t.next == OffsetAt(u, k + 1) && !t.reported
  {
    assert !Holds(u, ip, c.at(k));
  }

  lemma OffsetNext(u: State, k: nat)
    requires InPool(u) && k < u.pool
    ensures var next := OffsetAt(u, k + 1); OffsetAt(u, k) == if next <= 1 then u.pool else next - 1
  {
  }

  ghost predicate NextFound(s: State, c: Clock, s': State, ip: nat) {
    var end: nat := if s'.next <= 1 then s.pool else s'.next - 1;
    && ip == AddressOf(end) && !Holds(s, ip, c.last)
    && forall off: nat :: OnTheWay(s.next, off, end, s.pool) ==> Holds(s, AddressOf(off), c.first)
  }

  lemma PassedLive(u: State, c: Clock, k: nat)
    requires InPool(u) && Runs(c, u) && k < u.pool && k == FirstFree(u, c.at, 0)
    ensures forall off: nat :: OnTheWay(u.next, off, OffsetAt(u, k), u.pool) ==> Holds(u, AddressOf(off), c.first)
  {
    forall off: nat | OnTheWay(u.next, off, OffsetAt(u, k), u.pool) ensures Holds(u, AddressOf(off), c.first) {
      var j := if off >= u.next then off - u.next else off + u.pool - u.next;
      assert OffsetAt(u, j) == off && j < k;
      assert Holds(u, AddressOf(OffsetAt(u, j)), c.at(j));
    }
  }
}
