/** The single numbered transfer and its addressed cancel: every interleaving of
    the atomic steps of `TransferGuard::acquire`, its drop, `transfer_cancel` and
    `transfer_cancelled`, for any number of threads. */
module Transfer {

  /** Where a thread stands between two atomic steps. */
  datatype Pc =
    | Idle
    | Won                             // acquire: the exchange of `active` succeeded
    | Numbered(id: nat)               // acquire: a number was drawn
    | Published(id: nat)              // acquire: `id` was stored
    | Holding(id: nat)                // acquire returned its guard
    | Polling(id: nat, seen: nat)     // the holder's poll has read `id`
    | Unpublished(id: nat)            // drop: `id` was zeroed
    | Cleared(id: nat)                // drop: `cancel` was zeroed
    | Cancelling(want: nat)           // transfer_cancel was called with a non-zero number
    | Checked(want: nat)              // ... and found it in `id`
    | Marked(want: nat)               // ... and stored it in `cancel`

  datatype Action =
    | Exchange | Draw | Publish | ZeroCancel
    | PollId | PollCancel
    | DropId | DropCancel | Release
    | CallCancel(want: nat) | CheckId | StoreCancel | RereadId

  /** The shared atomics, the threads, and a record of what happened. */
  datatype State = State(
    active: bool, id: nat, cancel: nat, nextId: nat,
    threads: seq<Pc>,
    issued: seq<nat>,            // numbers drawn, in order
    accepted: set<nat>,          // numbers for which a cancel call passed its check
    polls: seq<(nat, bool)>,     // what polls answered, and to which transfer
    answers: seq<(nat, bool)>)   // what cancel calls returned

  function Initial(n: nat): State {
    State(false, 0, 0, 1, seq(n, _ => Idle), [], {}, [], [])
  }

  function Move(s: State, t: nat, pc: Pc): State
    requires t < |s.threads|
  {
    s.(threads := s.threads[t := pc])
  }

  predicate Enabled(s: State, t: nat, a: Action) {
    t < |s.threads| &&
    var pc := s.threads[t];
    match a
    case Exchange => pc.Idle?
    case Draw => pc.Won?
    case Publish => pc.Numbered?
    case ZeroCancel => pc.Published?
    case PollId => pc.Holding?
    case PollCancel => pc.Polling?
    case DropId => pc.Holding?
    case DropCancel => pc.Unpublished?
    case Release => pc.Cleared?
    case CallCancel(_) => pc.Idle?
    case CheckId => pc.Cancelling?
    case StoreCancel => pc.Checked?
    case RereadId => pc.Marked?
  }

  function Next(s: State, t: nat, a: Action): State
    requires Enabled(s, t, a)
  {
    var pc := s.threads[t];
    match a
    case Exchange => if s.active then s else Move(s, t, Won).(active := true)
    case Draw => Move(s, t, Numbered(s.nextId)).(nextId := s.nextId + 1, issued := s.issued + [s.nextId])
    case Publish => Move(s, t, Published(pc.id)).(id := pc.id)
    case ZeroCancel => Move(s, t, Holding(pc.id)).(cancel := 0)
    case PollId => Move(s, t, Polling(pc.id, s.id))
    case PollCancel =>
      var cancelled := pc.seen != 0 && s.cancel == pc.seen;
      Move(s, t, Holding(pc.id)).(polls := s.polls + [(pc.id, cancelled)])
    case DropId => Move(s, t, Unpublished(pc.id)).(id := 0)
    case DropCancel => Move(s, t, Cleared(pc.id)).(cancel := 0)
    case Release => Move(s, t, Idle).(active := false)
    case CallCancel(want) =>
      if want == 0 then s.(answers := s.answers + [(0, false)]) else Move(s, t, Cancelling(want))
    case CheckId =>
      if s.id != pc.want then Move(s, t, Idle).(answers := s.answers + [(pc.want, false)])
      else Move(s, t, Checked(pc.want)).(accepted := s.accepted + {pc.want})
    case StoreCancel => Move(s, t, Marked(pc.want)).(cancel := pc.want)
    case RereadId => Move(s, t, Idle).(answers := s.answers + [(pc.want, s.id == pc.want)])
  }

  // ---- Invariant ----

  predicate Owns(pc: Pc) {
    pc.Won? || pc.Numbered? || pc.Published? || pc.Holding? || pc.Polling? || pc.Unpublished? || pc.Cleared?
  }

  /** The transfer is current: its number stands in `id`. */
  predicate IsCurrent(pc: Pc) {
    pc.Published? || pc.Holding? || pc.Polling?
  }

  ghost predicate SingleOwner(s: State) {
    && (forall t, u :: 0 <= t < |s.threads| && 0 <= u < |s.threads| && Owns(s.threads[t]) && Owns(s.threads[u]) ==>
         t == u)
    && (s.active <==> exists t :: 0 <= t < |s.threads| && Owns(s.threads[t]))
  }

  ghost predicate IdMatchesOwner(s: State) {
    && (forall t :: 0 <= t < |s.threads| && IsCurrent(s.threads[t]) ==> s.id == s.threads[t].id)
    && (s.id != 0 ==> exists t :: 0 <= t < |s.threads| && IsCurrent(s.threads[t]))
  }

  ghost predicate NumbersIssued(s: State) {
    && s.nextId >= 1
    && (forall i, j :: 0 <= i < j < |s.issued| ==> s.issued[i] < s.issued[j])
    && (forall i :: 0 <= i < |s.issued| ==> 1 <= s.issued[i] < s.nextId)
    && (forall t :: 0 <= t < |s.threads| && Owns(s.threads[t]) && !s.threads[t].Won? ==> s.threads[t].id in s.issued)
    && (forall t :: 0 <= t < |s.threads| && s.threads[t].Polling? ==> s.threads[t].seen == s.threads[t].id)
  }

  /** The thread is inside a cancel call for a non-zero number. */
  predicate InCancel(pc: Pc) {
    pc.Cancelling? || pc.Checked? || pc.Marked?
  }

  ghost predicate CancelsAccepted(s: State) {
    && (s.cancel != 0 ==> s.cancel in s.accepted)
    && (forall t :: 0 <= t < |s.threads| && (s.threads[t].Checked? || s.threads[t].Marked?) ==>
         s.threads[t].want in s.accepted)
    && (forall i :: 0 <= i < |s.polls| && s.polls[i].1 ==> s.polls[i].0 in s.accepted && s.polls[i].0 != 0)
    && (forall t :: 0 <= t < |s.threads| && InCancel(s.threads[t]) ==> s.threads[t].want != 0)
  }

  ghost predicate Inv(s: State) {
    SingleOwner(s) && IdMatchesOwner(s) && NumbersIssued(s) && CancelsAccepted(s)
  }

  /** Only the exchange and the release change who owns the transfer. */
  lemma OwnsChange(s: State, t: nat, a: Action)
    requires Enabled(s, t, a)
    ensures var s' := Next(s, t, a);
            && |s'.threads| == |s.threads|
            && (forall u :: 0 <= u < |s.threads| && u != t ==> s'.threads[u] == s.threads[u])
            && (a.Exchange? ==> s'.active && (Owns(s'.threads[t]) <==> !s.active))
            && (a.Release? ==> Owns(s.threads[t]) && !s'.active && !Owns(s'.threads[t]))
            && (!a.Exchange? && !a.Release? ==> s'.active == s.active && (Owns(s'.threads[t]) <==> Owns(s.threads[t])))
  {
  }

  lemma OwnerKept(s: State, t: nat, a: Action)
    requires SingleOwner(s) && Enabled(s, t, a)
    ensures SingleOwner(Next(s, t, a))
  {
    var s' := Next(s, t, a);
    OwnsChange(s, t, a);
    assert a.Exchange? ==> !Owns(s.threads[t]);
    OwnerMoves(s.threads, s'.threads, t, s.active, s'.active, a.Exchange?, a.Release?);
  }

  lemma OwnerMoves(before: seq<Pc>, after: seq<Pc>, t: nat, active: bool, active': bool, won: bool, released: bool)
    requires t < |before| == |after| && forall u :: 0 <= u < |before| && u != t ==> after[u] == before[u]
    requires forall u, v :: 0 <= u < |before| && 0 <= v < |before| && Owns(before[u]) && Owns(before[v]) ==> u == v
    requires active <==> exists u :: 0 <= u < |before| && Owns(before[u])
    requires !(won && released)
    requires won ==> active' && !Owns(before[t]) && (Owns(after[t]) <==> !active)
    requires released ==> Owns(before[t]) && !active' && !Owns(after[t])
    requires !won && !released ==> active' == active && (Owns(after[t]) <==> Owns(before[t]))
    ensures forall u, v :: 0 <= u < |after| && 0 <= v < |after| && Owns(after[u]) && Owns(after[v]) ==> u == v
    ensures active' <==> exists u :: 0 <= u < |after| && Owns(after[u])
  {
    if active && !released {
      var o :| 0 <= o < |before| && Owns(before[o]);
      assert Owns(after[o]);
    }
    if won && !active { assert Owns(after[t]); }
  }

  /** Only publishing and dropping change which transfer is current. */
  lemma CurrentChange(s: State, t: nat, a: Action)
    requires Enabled(s, t, a)
    ensures var s' := Next(s, t, a);
            var pc, pc' := s.threads[t], s'.threads[t];
            && (a.Publish? ==> IsCurrent(pc') && s'.id == pc'.id && Owns(pc))
            && (a.DropId? ==> !IsCurrent(pc') && s'.id == 0 && Owns(pc))
            && (!a.Publish? && !a.DropId? ==>
                  s'.id == s.id && (IsCurrent(pc') <==> IsCurrent(pc)) && (IsCurrent(pc) ==> pc'.id == pc.id))
  {
  }

  lemma IdKept(s: State, t: nat, a: Action)
    requires SingleOwner(s) && IdMatchesOwner(s) && Enabled(s, t, a)
    ensures IdMatchesOwner(Next(s, t, a))
  {
    OwnsChange(s, t, a);
    CurrentChange(s, t, a);
    var s' := Next(s, t, a);
    if a.Publish? {
      assert IsCurrent(s'.threads[t]);
    } else if s'.id != 0 {
      var o :| 0 <= o < |s.threads| && IsCurrent(s.threads[o]);
      assert IsCurrent(s'.threads[o]);
    }
  }

  lemma IssuedKept(s: State, t: nat, a: Action)
    requires NumbersIssued(s) && Enabled(s, t, a)
    ensures var s' := Next(s, t, a);
            && s'.nextId >= 1 && s.issued <= s'.issued
            && (forall i, j :: 0 <= i < j < |s'.issued| ==> s'.issued[i] < s'.issued[j])
            && (forall i :: 0 <= i < |s'.issued| ==> 1 <= s'.issued[i] < s'.nextId)
  {
  }

  lemma NumbersKept(s: State, t: nat, a: Action)
    requires NumbersIssued(s) && IdMatchesOwner(s) && Enabled(s, t, a)
    ensures NumbersIssued(Next(s, t, a))
  {
    var s' := Next(s, t, a);
    IssuedKept(s, t, a);
    OwnsChange(s, t, a);
    assert a.Draw? ==> s'.issued[|s.issued|] == s.nextId;
    assert Owns(s'.threads[t]) && !s'.threads[t].Won? ==> s'.threads[t].id in s'.issued;
    assert forall x :: x in s.issued ==> x in s'.issued;
  }

  /** What a step does to the thread that takes it, as far as cancels go. */
  lemma CancelChange(s: State, t: nat, a: Action)
    requires CancelsAccepted(s) && NumbersIssued(s) && Enabled(s, t, a)
    ensures var s' := Next(s, t, a);
            var pc' := s'.threads[t];
            && s.accepted <= s'.accepted && (s'.cancel != 0 ==> s'.cancel in s'.accepted)
            && (s'.polls == s.polls ||
                exists p: (nat, bool) :: s'.polls == s.polls + [p] && (p.1 ==> p.0 in s'.accepted && p.0 != 0))
            && (pc'.Checked? || pc'.Marked? ==> pc'.want in s'.accepted) && (InCancel(pc') ==> pc'.want != 0)
  {
    var pc := s.threads[t];
    assert pc.Checked? || pc.Marked? ==> pc.want in s.accepted;
    assert InCancel(pc) ==> pc.want != 0;
    assert pc.Polling? ==> pc.seen == pc.id;
    if a.PollCancel? {
      var p: (nat, bool) := (pc.id, pc.seen != 0 && s.cancel == pc.seen);
      assert Next(s, t, a).polls == s.polls + [p];
    }
  }

  lemma CancelsKept(s: State, t: nat, a: Action)
    requires CancelsAccepted(s) && NumbersIssued(s) && Enabled(s, t, a)
    ensures CancelsAccepted(Next(s, t, a))
  {
    CancelChange(s, t, a);
    OwnsChange(s, t, a);
  }

  lemma StepKeepsInv(s: State, t: nat, a: Action)
    requires Inv(s) && Enabled(s, t, a)
    ensures Inv(Next(s, t, a))
  {
    OwnerKept(s, t, a);
    IdKept(s, t, a);
    NumbersKept(s, t, a);
    CancelsKept(s, t, a);
  }

  // ---- Whole runs ----

  type Schedule = seq<(nat, Action)>

  /** `states` are the states passed by `n` threads under the schedule. */
  ghost predicate IsRun(n: nat, states: seq<State>, steps: Schedule) {
    && |states| == |steps| + 1
    && states[0] == Initial(n)
    && forall i :: 0 <= i < |steps| ==>
         Enabled(states[i], steps[i].0, steps[i].1) && states[i + 1] == Next(states[i], steps[i].0, steps[i].1)
  }

  lemma {:induction false} RunInv(n: nat, states: seq<State>, steps: Schedule, k: nat)
    requires IsRun(n, states, steps) && k <= |steps|
    ensures Inv(states[k])
  {
    if k > 0 {
      RunInv(n, states, steps, k - 1);
      StepKeepsInv(states[k - 1], steps[k - 1].0, steps[k - 1].1);
    }
  }

  /** At every point of every run: at most one thread is anywhere between winning
      the exchange and releasing it, and the numbers drawn never repeat. */
  lemma MutualExclusion(n: nat, states: seq<State>, steps: Schedule, k: nat)
    requires IsRun(n, states, steps) && k <= |steps|
    ensures var th := states[k].threads;
            forall t, u :: 0 <= t < |th| && 0 <= u < |th| && Owns(th[t]) && Owns(th[u]) ==> t == u
    ensures forall i, j :: 0 <= i < j < |states[k].issued| ==> states[k].issued[i] != states[k].issued[j]
  {
    RunInv(n, states, steps, k);
  }

  /** Step `j` was the check of a cancel call naming `x`, while some thread's transfer `x` was current. */
  ghost predicate AcceptedAt(states: seq<State>, steps: Schedule, j: nat, x: nat) {
    && j < |steps| && j < |states| && steps[j].1.CheckId?
    && steps[j].0 < |states[j].threads| && states[j].threads[steps[j].0] == Cancelling(x)
    && exists o :: 0 <= o < |states[j].threads| && IsCurrent(states[j].threads[o]) && states[j].threads[o].id == x
  }

  lemma {:induction false} AcceptedHasCause(n: nat, states: seq<State>, steps: Schedule, k: nat, x: nat)
    returns (j: nat)
    requires IsRun(n, states, steps) && k <= |steps| && x in states[k].accepted && x != 0
    ensures j < k && AcceptedAt(states, steps, j, x)
  {
    assert k > 0;
    var s, t, a := states[k - 1], steps[k - 1].0, steps[k - 1].1;
    assert states[k] == Next(s, t, a);
    if x in s.accepted {
      j := AcceptedHasCause(n, states, steps, k - 1, x);
    } else {
      RunInv(n, states, steps, k - 1);
      j := k - 1;
      assert s.threads[t] == Cancelling(x) && s.id == x;
    }
  }

  /** A poll answers "cancelled" only because an earlier cancel call named that transfer's own
      number and passed its check while the transfer was current. */
  lemma CancelIsAddressed(n: nat, states: seq<State>, steps: Schedule, k: nat, i: nat) returns (j: nat)
    requires IsRun(n, states, steps) && k <= |steps| && i < |states[k].polls| && states[k].polls[i].1
    ensures j < k && AcceptedAt(states, steps, j, states[k].polls[i].0)
  {
    RunInv(n, states, steps, k);
    j := AcceptedHasCause(n, states, steps, k, states[k].polls[i].0);
  }

  /** A poll records one answer, to the transfer that polls: whether the flag names it. */
  lemma PollTruth(s: State, t: nat)
    requires Inv(s) && Enabled(s, t, PollCancel)
    ensures var x := s.threads[t].id; Next(s, t, PollCancel).polls == s.polls + [(x, s.cancel == x)]
  {
    assert Owns(s.threads[t]) && s.threads[t].id in s.issued;
  }

  // ---- When a cancel stays in force ----

  /** Transfer `x`, held by thread `o`, has its cancel flag up and no call for another number about to overwrite it. */
  predicate InForce(s: State, o: nat, x: nat) {
    && o < |s.threads| && (s.threads[o].Holding? || s.threads[o].Polling?) && s.threads[o].id == x
    && s.cancel == x
    && forall t :: 0 <= t < |s.threads| && s.threads[t].Checked? ==> s.threads[t].want == x
  }

  /** Once in force, a cancel survives every step of every thread until its transfer is dropped. */
  lemma StaysInForce(s: State, o: nat, x: nat, t: nat, a: Action)
    requires Inv(s) && InForce(s, o, x) && Enabled(s, t, a)
    requires !(t == o && a.DropId?)
    ensures InForce(Next(s, t, a), o, x)
  {
    assert IsCurrent(s.threads[o]) && Owns(s.threads[o]);
  }

  /** A call that has passed its check takes the flag with its next step, whatever the
      current transfer is doing. */
  lemma StaleCallOverwrites(s: State, o: nat, t: nat)
    requires o < |s.threads| && IsCurrent(s.threads[o]) && t < |s.threads| && s.threads[t].Checked?
    ensures var s' := Next(s, t, StoreCancel); s'.threads[o] == s.threads[o] && s'.cancel == s.threads[t].want
  {
  }

  /** In the next step nothing but its own drop can take the flag from a current transfer,
      if and only if the cancel is in force. */
  lemma FlagKeptExactly(s: State, o: nat, x: nat)
    requires Inv(s) && o < |s.threads| && IsCurrent(s.threads[o]) && s.threads[o].id == x && s.cancel == x
    ensures InForce(s, o, x) <==>
            forall t: nat, a :: Enabled(s, t, a) && !(t == o && a.DropId?) ==> Next(s, t, a).cancel == x
  {
    if InForce(s, o, x) {
      forall t: nat, a | Enabled(s, t, a) && !(t == o && a.DropId?) ensures Next(s, t, a).cancel == x {
        StaysInForce(s, o, x, t, a);
      }
    } else if s.threads[o].Published? {
      assert Enabled(s, o, ZeroCancel) && Next(s, o, ZeroCancel).cancel == 0;
      assert s.threads[o].id in s.issued;
    } else {
      var t: nat :| t < |s.threads| && s.threads[t].Checked? && s.threads[t].want != x;
      assert Enabled(s, t, StoreCancel);
      StaleCallOverwrites(s, o, t);
    }
  }

  /** So from the moment it is in force, every poll of that transfer answers "cancelled". */
  lemma {:induction false} InForceUntilDropped(n: nat, states: seq<State>, steps: Schedule, i: nat, k: nat, o: nat,
                                               x: nat)
    requires IsRun(n, states, steps) && i <= k <= |steps|
    requires InForce(states[i], o, x)
    requires forall m :: i <= m < k ==> !(steps[m].0 == o && steps[m].1.DropId?)
    ensures InForce(states[k], o, x) && x != 0
    ensures k < |steps| && steps[k] == (o, PollCancel) ==> states[k + 1].polls == states[k].polls + [(x, true)]
    decreases k - i
  {
    if i < k {
      InForceUntilDropped(n, states, steps, i, k - 1, o, x);
      InForceStep(n, states, steps, k - 1, o, x);
    }
    RunInv(n, states, steps, k);
    InForcePolls(states[k], o, x);
    if k < |steps| && steps[k] == (o, PollCancel) { PollTruth(states[k], o); }
  }

  lemma InForceStep(n: nat, states: seq<State>, steps: Schedule, k: nat, o: nat, x: nat)
    requires IsRun(n, states, steps) && k < |steps| && InForce(states[k], o, x) && steps[k] != (o, DropId)
    ensures InForce(states[k + 1], o, x)
  {
    RunInv(n, states, steps, k);
    StaysInForce(states[k], o, x, steps[k].0, steps[k].1);
  }

  /** While a cancel is in force, a poll about to finish answers "cancelled". */
  lemma InForcePolls(s: State, o: nat, x: nat)
    requires Inv(s) && InForce(s, o, x)
    ensures x != 0 && (s.threads[o].Polling? ==> Next(s, o, PollCancel).polls == s.polls + [(x, true)])
  {
    if s.threads[o].Polling? { PollTruth(s, o); }
    assert Owns(s.threads[o]) && s.threads[o].id in s.issued;
  }

  // ---- What a cancel that answered "true" is worth ----

  /** The states passed from `s` on under the schedule. */
  ghost predicate Continues(s: State, states: seq<State>, steps: Schedule) {
    && |states| == |steps| + 1
    && states[0] == s
    && forall i :: 0 <= i < |steps| ==>
         Enabled(states[i], steps[i].0, steps[i].1) && states[i + 1] == Next(states[i], steps[i].0, steps[i].1)
  }

  /** Step `k` finishes a poll of thread `o`, which has not dropped its transfer before. */
  ghost predicate PollsAt(steps: Schedule, k: nat, o: nat) {
    && k < |steps| && steps[k] == (o, PollCancel)
    && forall m :: 0 <= m < k ==> steps[m] != (o, DropId)
  }

  /** Whatever every thread does from `s` on, each poll of transfer `x` until its drop answers "cancelled". */
  ghost predicate AlwaysSeen(s: State, o: nat, x: nat) {
    forall states: seq<State>, steps: Schedule, k: nat ::
      Continues(s, states, steps) && PollsAt(steps, k, o) ==> Tells(states[k], states[k + 1], x)
  }

  /** The step recorded that a poll answered "cancelled" to transfer `x`. */
  predicate Tells(s: State, s': State, x: nat) {
    s'.polls == s.polls + [(x, true)]
  }

  lemma {:induction false} InForceContinues(s: State, states: seq<State>, steps: Schedule, k: nat, o: nat, x: nat)
    requires Inv(s) && InForce(s, o, x) && Continues(s, states, steps) && k <= |steps|
    requires forall m :: 0 <= m < k ==> steps[m] != (o, DropId)
    ensures Inv(states[k]) && InForce(states[k], o, x)
  {
    if k > 0 {
      InForceContinues(s, states, steps, k - 1, o, x);
      StepKeepsInv(states[k - 1], steps[k - 1].0, steps[k - 1].1);
      StaysInForce(states[k - 1], o, x, steps[k - 1].0, steps[k - 1].1);
    }
  }

  lemma InForceIsSeen(s: State, o: nat, x: nat)
    requires Inv(s) && InForce(s, o, x)
    ensures AlwaysSeen(s, o, x)
  {
    forall states: seq<State>, steps: Schedule, k: nat | Continues(s, states, steps) && PollsAt(steps, k, o)
      ensures Tells(states[k], states[k + 1], x)
    {
      InForceContinues(s, states, steps, k, o, x);
      assert Enabled(states[k], steps[k].0, steps[k].1);
      PollTruth(states[k], o);
    }
  }

  /** A step other than the drop puts a continuation in front of those of the next state. */
  lemma SeenAfterStep(s: State, t: nat, a: Action, o: nat, x: nat)
    requires AlwaysSeen(s, o, x) && Enabled(s, t, a) && !(t == o && a.DropId?)
    ensures AlwaysSeen(Next(s, t, a), o, x)
  {
    forall states: seq<State>, steps: Schedule, k: nat | Continues(Next(s, t, a), states, steps) && PollsAt(steps, k, o)
      ensures Tells(states[k], states[k + 1], x)
    {
      var states', steps' := [s] + states, [(t, a)] + steps;
      assert Continues(s, states', steps') by {
        forall i | 0 <= i < |steps'|
          ensures Enabled(states'[i], steps'[i].0, steps'[i].1)
          ensures states'[i + 1] == Next(states'[i], steps'[i].0, steps'[i].1)
        {
          if i > 0 { assert states'[i] == states[i - 1] && steps'[i] == steps[i - 1] && states'[i + 1] == states[i]; }
        }
      }
      assert PollsAt(steps', k + 1, o) by {
        forall m | 0 <= m < k + 1 ensures steps'[m] != (o, DropId) {
          if m > 0 { assert steps'[m] == steps[m - 1]; }
        }
      }
      assert states'[k + 1] == states[k] && states'[k + 1 + 1] == states[k + 1];
    }
  }

  /** A transfer in the middle of a poll that is always seen is told now. */
  lemma SeenNow(s: State, o: nat, x: nat)
    requires AlwaysSeen(s, o, x) && o < |s.threads| && s.threads[o].Polling?
    ensures Tells(s, Next(s, o, PollCancel), x)
  {
    var states: seq<State>, steps: Schedule := [s, Next(s, o, PollCancel)], [(o, PollCancel)];
    assert Continues(s, states, steps) && PollsAt(steps, 0, o);
    assert Tells(states[0], states[0 + 1], x);
  }

  lemma SeenPolling(s: State, o: nat, x: nat)
    requires Inv(s) && AlwaysSeen(s, o, x) && o < |s.threads| && s.threads[o].Polling?
    ensures s.cancel == x
  {
    SeenNow(s, o, x);
    PollTruth(s, o);
    var answer := (s.threads[o].id, s.cancel == s.threads[o].id);
    assert answer == (s.polls + [answer])[|s.polls|] == (x, true);
  }

  lemma SeenHasFlag(s: State, o: nat, x: nat)
    requires Inv(s) && AlwaysSeen(s, o, x) && o < |s.threads| && (s.threads[o].Holding? || s.threads[o].Polling?)
    ensures s.cancel == x
  {
    if s.threads[o].Holding? {
      SeenAfterStep(s, o, PollId, o, x);
      StepKeepsInv(s, o, PollId);
      SeenPolling(Next(s, o, PollId), o, x);
    } else {
      SeenPolling(s, o, x);
    }
  }

  lemma SeenIsInForce(s: State, o: nat, x: nat)
    requires Inv(s) && o < |s.threads| && IsCurrent(s.threads[o]) && s.threads[o].id == x && AlwaysSeen(s, o, x)
    ensures InForce(s, o, x)
  {
    if s.threads[o].Published? {
      SeenAfterStep(s, o, ZeroCancel, o, x);
      StepKeepsInv(s, o, ZeroCancel);
      assert x in s.issued;
      SeenHasFlag(Next(s, o, ZeroCancel), o, x);
      assert false;
    }
    SeenHasFlag(s, o, x);
    forall t: nat | t < |s.threads| && s.threads[t].Checked? ensures s.threads[t].want == x {
      SeenAfterStep(s, t, StoreCancel, o, x);
      StepKeepsInv(s, t, StoreCancel);
      StaleCallOverwrites(s, o, t);
      SeenHasFlag(Next(s, t, StoreCancel), o, x);
    }
  }

  /** Every continuation polls "cancelled" until the drop, if and only if the cancel is in force. */
  lemma SeenExactly(s: State, o: nat, x: nat)
    requires Inv(s) && o < |s.threads| && IsCurrent(s.threads[o]) && s.threads[o].id == x
    ensures AlwaysSeen(s, o, x) <==> InForce(s, o, x)
  {
    if InForce(s, o, x) { InForceIsSeen(s, o, x); }
    if AlwaysSeen(s, o, x) { SeenIsInForce(s, o, x); }
  }

  /** A cancel call that answers "true" addressed the current transfer; it is worth its
      answer, in that every later poll says "cancelled", if and only if at that moment
      acquire has returned, the flag still names the transfer, and no call for another
      number stands between its check and its store. */
  lemma AnswerHolds(n: nat, states: seq<State>, steps: Schedule, k: nat) returns (o: nat)
    requires IsRun(n, states, steps) && k < |steps| && steps[k].1.RereadId?
    requires var x := states[k].threads[steps[k].0].want; states[k + 1].answers == states[k].answers + [(x, true)]
    ensures var s, x := states[k + 1], states[k].threads[steps[k].0].want;
            && o < |s.threads| && IsCurrent(s.threads[o]) && s.threads[o].id == x == s.id
            && (AlwaysSeen(s, o, x) <==>
                  && !s.threads[o].Published? && s.cancel == x
                  && forall t :: 0 <= t < |s.threads| && s.threads[t].Checked? ==> s.threads[t].want == x)
  {
    var s, t := states[k], steps[k].0;
    var x := s.threads[t].want;
    RunInv(n, states, steps, k);
    RunInv(n, states, steps, k + 1);
    assert (x, s.id == x) == states[k + 1].answers[|s.answers|] == (x, true);
    assert x != 0;
    o :| 0 <= o < |states[k + 1].threads| && IsCurrent(states[k + 1].threads[o]);
    SeenExactly(states[k + 1], o, x);
  }

  /** A run that ends in `s`. */
  ghost predicate Reaches(n: nat, s: State) {
    exists states: seq<State>, steps: Schedule :: IsRun(n, states, steps) && states[|steps|] == s
  }

  lemma OneStep(n: nat, s: State, t: nat, a: Action, s': State)
    requires Reaches(n, s) && Enabled(s, t, a) && s' == Next(s, t, a)
    ensures Reaches(n, s')
  {
    var states: seq<State>, steps: Schedule :| IsRun(n, states, steps) && states[|steps|] == s;
    var states', steps' := states + [s'], steps + [(t, a)];
    assert IsRun(n, states', steps') && states'[|steps'|] == s';
  }

  lemma InitialReached(n: nat)
    ensures Reaches(n, Initial(n))
  {
    var states: seq<State>, none: Schedule := [Initial(n)], [];
    assert IsRun(n, states, none) && states[|none|] == Initial(n);
  }

  lemma NumberPublished()
    ensures Reaches(2, State(true, 1, 0, 2, [Published(1), Idle], [1], {}, [], []))
  {
    var s0 := Initial(2);
    InitialReached(2);
    assert s0.threads == [Idle, Idle];
    var s1 := State(true, 0, 0, 1, [Won, Idle], [], {}, [], []);
    OneStep(2, s0, 0, Exchange, s1);
    var s2 := State(true, 0, 0, 2, [Numbered(1), Idle], [1], {}, [], []);
    OneStep(2, s1, 0, Draw, s2);
    OneStep(2, s2, 0, Publish, State(true, 1, 0, 2, [Published(1), Idle], [1], {}, [], []));
  }

  /** A cancel call that passes its check between the publishing of the number and
      the zeroing of the flag has stored the flag before it is zeroed. */
  lemma CancelDuringAcquire()
    ensures Reaches(2, State(true, 1, 1, 2, [Published(1), Marked(1)], [1], {1}, [], []))
  {
    NumberPublished();
    var s3 := State(true, 1, 0, 2, [Published(1), Idle], [1], {}, [], []);
    var s4 := s3.(threads := [Published(1), Cancelling(1)]);
    OneStep(2, s3, 1, CallCancel(1), s4);
    var s5 := s3.(threads := [Published(1), Checked(1)], accepted := {1});
    OneStep(2, s4, 1, CheckId, s5);
    OneStep(2, s5, 1, StoreCancel, s5.(threads := [Published(1), Marked(1)], cancel := 1));
  }

  /** The call answered "true", and the transfer is not told: its flag has been zeroed. */
  const LOST: State := State(true, 1, 0, 2, [Holding(1), Idle], [1], {1}, [], [(1, true)])

  lemma LostReached()
    ensures Reaches(2, LOST)
  {
    CancelDuringAcquire();
    var s6 := State(true, 1, 1, 2, [Published(1), Marked(1)], [1], {1}, [], []);
    var s7 := s6.(threads := [Holding(1), Marked(1)], cancel := 0);
    OneStep(2, s6, 0, ZeroCancel, s7);
    OneStep(2, s7, 1, RereadId, LOST);
  }

  lemma ReachedInv(n: nat, s: State)
    requires Reaches(n, s)
    ensures Inv(s)
  {
    var states: seq<State>, steps: Schedule :| IsRun(n, states, steps) && states[|steps|] == s;
    RunInv(n, states, steps, |steps|);
  }

  /** So a cancel can be lost: a run in which the call answers "true", the transfer then
      polls, and the poll answers "not cancelled". */
  lemma LostCancel()
    ensures Reaches(2, LOST) && LOST.answers == [(1, true)] && LOST.threads[0] == Holding(1)
    ensures var polling := Next(LOST, 0, PollId);
            && Reaches(2, polling) && polling.threads[0] == Polling(1, 1)
            && Next(polling, 0, PollCancel).polls == [(1, false)]
    ensures !AlwaysSeen(LOST, 0, 1)
  {
    LostReached();
    OneStep(2, LOST, 0, PollId, Next(LOST, 0, PollId));
    ReachedInv(2, LOST);
    SeenExactly(LOST, 0, 1);
  }

  // ---- Undisturbed calls ----

  /** The thread takes the action if it stands there. */
  function Act(s: State, t: nat, a: Action): State {
    if Enabled(s, t, a) then Next(s, t, a) else s
  }

  /** `TransferGuard::acquire` by one thread, from its exchange to its return. */
  function Acquired(s: State, t: nat): State {
    Act(Act(Act(Act(s, t, Exchange), t, Draw), t, Publish), t, ZeroCancel)
  }

  /** The guard's drop. */
  function Dropped(s: State, t: nat): State {
    Act(Act(Act(s, t, DropId), t, DropCancel), t, Release)
  }

  /** `transfer_cancel` by one thread, from its call to its answer. */
  function Cancelled(s: State, t: nat, want: nat): State {
    Act(Act(Act(Act(s, t, CallCancel(want)), t, CheckId), t, StoreCancel), t, RereadId)
  }

  /** `transfer_cancelled` by the thread that holds the transfer. */
  function Polled(s: State, t: nat): State {
    Act(Act(s, t, PollId), t, PollCancel)
  }

  /** Acquiring while no transfer is active yields the next number, published, with no
      cancel pending; while one is active nothing happens. */
  lemma QuietAcquire(s: State, t: nat)
    requires Inv(s) && t < |s.threads| && s.threads[t] == Idle
    ensures var s' := Acquired(s, t);
            if s.active then s' == s
            else && s'.threads == s.threads[t := Holding(s.nextId)] && s'.active && s'.id == s.nextId && s'.cancel == 0
                 && s'.nextId == s.nextId + 1 && s'.issued == s.issued + [s.nextId]
  {
    if !s.active {
      assert s.threads[t := Won][t := Numbered(s.nextId)][t := Published(s.nextId)][t := Holding(s.nextId)] ==
             s.threads[t := Holding(s.nextId)];
    }
  }

  /** A drop leaves no transfer, no number and no cancel. */
  lemma QuietDrop(s: State, t: nat)
    requires Inv(s) && t < |s.threads| && s.threads[t].Holding?
    ensures Dropped(s, t) == s.(threads := s.threads[t := Idle], active := false, id := 0, cancel := 0)
  {
    var x := s.threads[t].id;
    assert s.threads[t := Unpublished(x)][t := Cleared(x)][t := Idle] == s.threads[t := Idle];
  }

  /** A cancel call for the current number answers "true" and raises the flag. */
  lemma QuietCancel(s: State, t: nat)
    requires Inv(s) && t < |s.threads| && s.threads[t] == Idle && s.id != 0
    ensures Cancelled(s, t, s.id) ==
            s.(cancel := s.id, accepted := s.accepted + {s.id}, answers := s.answers + [(s.id, true)])
  {
    var x := s.id;
    var found := CheckedCancel(s, t);
    var marked := Act(found, t, StoreCancel);
    assert marked == s.(cancel := x, accepted := s.accepted + {x}, threads := s.threads[t := Marked(x)]);
    assert s.threads[t := Marked(x)][t := Idle] == s.threads;
  }

  lemma CheckedCancel(s: State, t: nat) returns (found: State)
    requires t < |s.threads| && s.threads[t] == Idle && s.id != 0
    ensures found == Act(Act(s, t, CallCancel(s.id)), t, CheckId)
    ensures found == s.(accepted := s.accepted + {s.id}, threads := s.threads[t := Checked(s.id)])
  {
    found := Act(Act(s, t, CallCancel(s.id)), t, CheckId);
    assert s.threads[t := Cancelling(s.id)][t := Checked(s.id)] == s.threads[t := Checked(s.id)];
  }

  /** For any other number it answers "false" and changes nothing else. */
  lemma QuietRefusal(s: State, t: nat, want: nat)
    requires Inv(s) && t < |s.threads| && s.threads[t] == Idle && (want == 0 || want != s.id)
    ensures Cancelled(s, t, want) == s.(answers := s.answers + [(want, false)])
  {
    assert s.threads[t := Cancelling(want)][t := Idle] == s.threads;
  }

  /** A poll answers whether the flag names its transfer, and changes nothing else. */
  lemma QuietPoll(s: State, t: nat)
    requires Inv(s) && t < |s.threads| && s.threads[t].Holding?
    ensures var x := s.threads[t].id; Polled(s, t) == s.(polls := s.polls + [(x, s.cancel == x)])
  {
    var x := s.threads[t].id;
    assert Owns(s.threads[t]) && x in s.issued && s.id == x;
    assert s.threads[t := Polling(x, x)][t := Holding(x)] == s.threads;
  }
}
