/** The admission counters: lock-free limits on open connections and on request bytes in flight. */
module Admission {
  import opened Bytes

  type Thread = nat
  type GuardId = nat

  // ---------------------------------------------------------------- sums over finite maps

  ghost function Total(m: map<nat, nat>): nat
    decreases |m|
  {
    if m == map[] then 0
    else
      var k :| k in m.Keys;
      assert |m - {k}| < |m| by { assert m.Keys - {k} == (m - {k}).Keys; }
      m[k] + Total(m - {k})
  }

  /** `Total` does not depend on the order in which keys are taken. */
  lemma {:induction false} TotalWithout(m: map<nat, nat>, k: nat)
    requires k in m
    ensures Total(m) == m[k] + Total(m - {k})
    decreases |m|
  {
    var j :| j in m.Keys && Total(m) == m[j] + Total(m - {j});
    if j != k {
      assert |m - {j}| < |m| && |m - {k}| < |m| by {
        assert m.Keys - {j} == (m - {j}).Keys && m.Keys - {k} == (m - {k}).Keys;
      }
      TotalWithout(m - {j}, k);
      TotalWithout(m - {k}, j);
      assert m - {j} - {k} == m - {k} - {j};
    }
  }

  lemma TotalWith(m: map<nat, nat>, k: nat, v: nat)
    ensures Total(m[k := v]) == Total(m) + v - (if k in m then m[k] else 0)
  {
    TotalWithout(m[k := v], k);
    assert m[k := v] - {k} == m - {k};
    if k in m {
      TotalWithout(m, k);
    } else {
      assert m - {k} == m;
    }
  }

  lemma TotalBounds(m: map<nat, nat>, k: nat)
    requires k in m
    ensures m[k] <= Total(m)
  {
    TotalWithout(m, k);
  }

  // ---------------------------------------------------------------- bytes in flight

  /** `fetch_sub` wraps around. */
  function FetchSub(counter: nat, amount: nat): nat {
    (counter as int - amount as int) % (USIZE_MAX + 1)
  }

  /** A thread inside `reserve_bytes`: the amount wanted and the counter value it believes in. */
  datatype Attempt = Attempt(amount: nat, seen: nat)

  /** All threads, guards and the counter of one controller.

      `reserved` holds what threads have added to the counter but not yet put into a guard.
      `borrowed` names the guard a thread is extending; the exclusive reference it holds keeps
      everyone else from dropping or extending that guard. */
  datatype ByteState = ByteState(
    max: nat,
    inFlight: nat,
    guards: map<GuardId, nat>,
    trying: map<Thread, Attempt>,
    reserved: map<Thread, nat>,
    borrowed: map<Thread, GuardId>)

  datatype ByteStep =
    | Begin(t: Thread, amount: nat, target: Option<GuardId>, seen: nat)
    | Refuse(t: Thread)
    | CasFails(t: Thread, actual: nat)
    | CasSucceeds(t: Thread)
    | NewGuard(t: Thread, g: GuardId)
    | ExtendGuard(t: Thread)
    | RollBack(t: Thread)
    | DropGuard(g: GuardId)

  predicate Busy(s: ByteState, t: Thread) {
    t in s.trying || t in s.reserved
  }

  predicate Overflows(s: ByteState, t: Thread)
    requires t in s.reserved && t in s.borrowed && s.borrowed[t] in s.guards
  {
    s.guards[s.borrowed[t]] + s.reserved[t] > USIZE_MAX
  }

  /** Loads are relaxed and exchanges weak: the value a thread starts from, or is told after a
      failed exchange, may be any number at all, and an exchange may fail for no reason. */
  predicate Enabled(s: ByteState, step: ByteStep) {
    match step
    case Begin(t, amount, target, seen) =>
      && !Busy(s, t) && amount <= USIZE_MAX
      && (target.Some? ==> target.value in s.guards && target.value !in s.borrowed.Values)
    case Refuse(t) =>
      && t in s.trying
      && (s.trying[t].seen + s.trying[t].amount > USIZE_MAX || s.trying[t].seen + s.trying[t].amount > s.max)
    case CasFails(t, actual) => t in s.trying
    case CasSucceeds(t) =>
      && t in s.trying && s.trying[t].seen == s.inFlight
      && s.trying[t].seen + s.trying[t].amount <= USIZE_MAX
      && s.trying[t].seen + s.trying[t].amount <= s.max
    case NewGuard(t, g) => t in s.reserved && t !in s.borrowed && g !in s.guards
    case ExtendGuard(t) => t in s.reserved && t in s.borrowed && s.borrowed[t] in s.guards && !Overflows(s, t)
    case RollBack(t) => t in s.reserved && t in s.borrowed && s.borrowed[t] in s.guards && Overflows(s, t)
    case DropGuard(g) => g in s.guards && g !in s.borrowed.Values
  }

  function Apply(s: ByteState, step: ByteStep): ByteState
    requires Enabled(s, step)
  {
    match step
    case Begin(t, amount, target, seen) =>
      s.(trying := s.trying[t := Attempt(amount, seen)],
         borrowed := if target.Some? then s.borrowed[t := target.value] else s.borrowed - {t})
    case Refuse(t) => s.(trying := s.trying - {t}, borrowed := s.borrowed - {t})
    case CasFails(t, actual) => s.(trying := s.trying[t := Attempt(s.trying[t].amount, actual)])
    case CasSucceeds(t) =>
      s.(inFlight := s.trying[t].seen + s.trying[t].amount,
         trying := s.trying - {t},
         reserved := s.reserved[t := s.trying[t].amount])
    case NewGuard(t, g) =>
      s.(guards := s.guards[g := s.reserved[t]], reserved := s.reserved - {t})
    case ExtendGuard(t) =>
      var g := s.borrowed[t];
      s.(guards := s.guards[g := s.guards[g] + s.reserved[t]],
         reserved := s.reserved - {t}, borrowed := s.borrowed - {t})
    case RollBack(t) =>
      s.(inFlight := FetchSub(s.inFlight, s.reserved[t]),
         reserved := s.reserved - {t}, borrowed := s.borrowed - {t})
    case DropGuard(g) =>
      s.(inFlight := FetchSub(s.inFlight, s.guards[g]), guards := s.guards - {g})
  }

  predicate FreshController(s: ByteState) {
    s.max <= USIZE_MAX && s.inFlight == 0 && s.guards == map[] && s.trying == map[] && s.reserved == map[] && s.borrowed == map[]
  }

  /** Some interleaving of threads leads from a fresh controller to the last state. */
  ghost predicate Run(states: seq<ByteState>, steps: seq<ByteStep>) {
    && |states| == |steps| + 1
    && FreshController(states[0])
    && forall i :: 0 <= i < |steps| ==> Enabled(states[i], steps[i]) && states[i + 1] == Apply(states[i], steps[i])
  }

  /** The conservation law: every byte counted is in a live guard or on its way into one. */
  ghost predicate Conserved(s: ByteState) {
    && s.inFlight == Total(s.guards) + Total(s.reserved)
    && s.inFlight <= s.max <= USIZE_MAX
    && (forall t :: t in s.borrowed ==> s.borrowed[t] in s.guards)
    && (forall t :: t in s.trying ==> t !in s.reserved)
    && (forall t, u :: t in s.borrowed && u in s.borrowed && s.borrowed[t] == s.borrowed[u] ==> t == u)
    && (forall t :: t in s.borrowed ==> Busy(s, t))
  }

  lemma FetchSubIsExact(counter: nat, amount: nat)
    requires amount <= counter <= USIZE_MAX
    ensures FetchSub(counter, amount) == counter - amount
  {
  }

  lemma RollBackImpossible(s: ByteState, t: Thread)
    requires Conserved(s)
    ensures !Enabled(s, RollBack(t))
  {
    if t in s.reserved && t in s.borrowed {
      TotalBounds(s.guards, s.borrowed[t]);
      TotalBounds(s.reserved, t);
    }
  }

  lemma BeginConserves(s: ByteState, t: Thread, amount: nat, target: Option<GuardId>, seen: nat)
    requires Conserved(s) && Enabled(s, Begin(t, amount, target, seen))
    ensures Conserved(Apply(s, Begin(t, amount, target, seen)))
  {
    if target.Some? {
      assert forall u :: u in s.borrowed ==> s.borrowed[u] in s.borrowed.Values;
    }
  }

  lemma CasConserves(s: ByteState, t: Thread)
    requires Conserved(s) && Enabled(s, CasSucceeds(t))
    ensures Conserved(Apply(s, CasSucceeds(t)))
  {
    TotalWith(s.reserved, t, s.trying[t].amount);
  }

  lemma NewGuardConserves(s: ByteState, t: Thread, g: GuardId)
    requires Conserved(s) && Enabled(s, NewGuard(t, g))
    ensures Conserved(Apply(s, NewGuard(t, g)))
  {
    TotalWith(s.guards, g, s.reserved[t]);
    TotalWithout(s.reserved, t);
  }

  lemma ExtendConserves(s: ByteState, t: Thread)
    requires Conserved(s) && Enabled(s, ExtendGuard(t))
    ensures Conserved(Apply(s, ExtendGuard(t)))
  {
    TotalWith(s.guards, s.borrowed[t], s.guards[s.borrowed[t]] + s.reserved[t]);
    TotalWithout(s.reserved, t);
  }

  lemma DropConserves(s: ByteState, g: GuardId)
    requires Conserved(s) && Enabled(s, DropGuard(g))
    ensures Conserved(Apply(s, DropGuard(g)))
  {
    TotalWithout(s.guards, g);
    FetchSubIsExact(s.inFlight, s.guards[g]);
    assert forall u :: u in s.borrowed ==> s.borrowed[u] in s.borrowed.Values;
  }

  lemma StepConserves(s: ByteState, step: ByteStep)
    requires Conserved(s) && Enabled(s, step)
    ensures Conserved(Apply(s, step))
  {
    match step
    case Begin(t, amount, target, seen) => BeginConserves(s, t, amount, target, seen);
    case Refuse(t) =>
    case CasFails(t, actual) =>
    case CasSucceeds(t) => CasConserves(s, t);
    case NewGuard(t, g) => NewGuardConserves(s, t, g);
    case ExtendGuard(t) => ExtendConserves(s, t);
    case RollBack(t) => RollBackImpossible(s, t);
    case DropGuard(g) => DropConserves(s, g);
  }

  lemma {:induction false} RunConserves(states: seq<ByteState>, steps: seq<ByteStep>, i: nat)
    requires Run(states, steps) && i < |states|
    ensures Conserved(states[i])
  {
    if i > 0 {
      RunConserves(states, steps, i - 1);
      StepConserves(states[i - 1], steps[i - 1]);
    }
  }

  /** At every moment of every interleaving the counter equals the live guards plus the
      reservations under way and stays within the limit; no guard ever holds more than the counter,
      so that dropping it never wraps; and the roll-back of an extension never happens. */
  lemma ByteSafety(states: seq<ByteState>, steps: seq<ByteStep>)
    requires Run(states, steps)
    ensures forall s :: s in states ==>
              && s.inFlight == Total(s.guards) + Total(s.reserved)
              && s.inFlight <= s.max
              && forall g :: g in s.guards ==> FetchSub(s.inFlight, s.guards[g]) == s.inFlight - s.guards[g]
    ensures forall step :: step in steps ==> !step.RollBack?
  {
    forall s | s in states
      ensures s.inFlight == Total(s.guards) + Total(s.reserved) && s.inFlight <= s.max
      ensures forall g :: g in s.guards ==> FetchSub(s.inFlight, s.guards[g]) == s.inFlight - s.guards[g]
    {
      var i :| 0 <= i < |states| && states[i] == s;
      RunConserves(states, steps, i);
      forall g | g in s.guards
        ensures FetchSub(s.inFlight, s.guards[g]) == s.inFlight - s.guards[g]
      {
        TotalBounds(s.guards, g);
        FetchSubIsExact(s.inFlight, s.guards[g]);
      }
    }
    forall step | step in steps
      ensures !step.RollBack?
    {
      var i :| 0 <= i < |steps| && steps[i] == step;
      RunConserves(states, steps, i);
      if step.RollBack? {
        RollBackImpossible(states[i], step.t);
      }
    }
  }

  /** Nothing leaks: once every guard is dropped and no thread is inside an acquisition, the whole
      budget is free again. */
  lemma IdleMeansEmpty(states: seq<ByteState>, steps: seq<ByteStep>, i: nat)
    requires Run(states, steps) && i < |states|
    requires states[i].guards == map[] && states[i].reserved == map[]
    ensures states[i].inFlight == 0
  {
    RunConserves(states, steps, i);
  }

  // ---------------------------------------------------------------- open connections

  /** `won` are the threads whose exchange succeeded and that have not yet built their guard. */
  datatype ConnState = ConnState(max: nat, active: nat, trying: map<Thread, nat>, won: set<Thread>, guards: set<GuardId>)

  datatype ConnStep =
    | Load(t: Thread, seen: nat)
    | TurnAway(t: Thread)
    | Retry(t: Thread, actual: nat)
    | Win(t: Thread)
    | Open(t: Thread, g: GuardId)
    | Close(g: GuardId)

  predicate ConnEnabled(s: ConnState, step: ConnStep) {
    match step
    case Load(t, seen) => t !in s.trying && t !in s.won
    case TurnAway(t) => t in s.trying && s.trying[t] >= s.max
    case Retry(t, actual) => t in s.trying && s.trying[t] < s.max
    case Win(t) => t in s.trying && s.trying[t] < s.max && s.trying[t] == s.active
    case Open(t, g) => t in s.won && g !in s.guards
    case Close(g) => g in s.guards
  }

  function ConnApply(s: ConnState, step: ConnStep): ConnState
    requires ConnEnabled(s, step)
  {
    match step
    case Load(t, seen) => s.(trying := s.trying[t := seen])
    case TurnAway(t) => s.(trying := s.trying - {t})
    case Retry(t, actual) => s.(trying := s.trying[t := actual])
    case Win(t) => s.(active := s.trying[t] + 1, trying := s.trying - {t}, won := s.won + {t})
    case Open(t, g) => s.(won := s.won - {t}, guards := s.guards + {g})
    case Close(g) => s.(active := FetchSub(s.active, 1), guards := s.guards - {g})
  }

  ghost predicate ConnRun(states: seq<ConnState>, steps: seq<ConnStep>) {
    && |states| == |steps| + 1
    && states[0].max <= USIZE_MAX && states[0].active == 0
    && states[0].trying == map[] && states[0].won == {} && states[0].guards == {}
    && forall i :: 0 <= i < |steps| ==> ConnEnabled(states[i], steps[i]) && states[i + 1] == ConnApply(states[i], steps[i])
  }

  /** The connection counter equals the live connection guards plus those about to be built, and
      never exceeds the limit, under every interleaving. */
  lemma {:induction false} ConnectionSafety(states: seq<ConnState>, steps: seq<ConnStep>, i: nat)
    requires ConnRun(states, steps) && i < |states|
    ensures states[i].active == |states[i].guards| + |states[i].won|
    ensures states[i].active <= states[i].max <= USIZE_MAX
    ensures forall t :: t in states[i].trying ==> t !in states[i].won
  {
    if i > 0 {
      ConnectionSafety(states, steps, i - 1);
      var s := states[i - 1];
      match steps[i - 1]
      case Close(g) => FetchSubIsExact(s.active, 1);
      case _ =>
    }
  }
}
