/** The in-flight upgrade registry: one upgrade per module, with locks that expire. */
module UpgradeLock {
  import opened Bytes
  import opened Sorting

  /** Points of the monotonic clock, in nanoseconds. */
  type Instant = nat

  const TTL := 300 * 1_000_000_000

  datatype UpgradeGuard = UpgradeGuard(moduleId: string, acquiredAt: Instant)

  type Locks = map<string, Instant>

  /** `elapsed() < TTL` as read at `now`. */
  predicate Young(start: Instant, now: Instant) {
    now - start < TTL
  }

  // ---------------------------------------------------------------- the operations on the map

  predicate Refuses(locks: Locks, id: string, now: Instant) {
    id in locks && Young(locks[id], now)
  }

  /** Acquisition reads the clock twice: for the age of an existing lock and for the new one. */
  function Acquired(locks: Locks, id: string, now: Instant, later: Instant): Locks {
    if Refuses(locks, id, now) then locks else locks[id := later]
  }

  function Dropped(locks: Locks, guard: UpgradeGuard): Locks {
    if guard.moduleId in locks && locks[guard.moduleId] == guard.acquiredAt then locks - {guard.moduleId} else locks
  }

  /** `retain` reads the clock once for each entry. */
  function Pruned(locks: Locks, readings: map<string, Instant>): Locks
    requires locks.Keys <= readings.Keys
  {
    map id | id in locks && Young(locks[id], readings[id]) :: locks[id]
  }

  /** The map behind the mutex. Every method runs with the mutex held. */
  class UpgradeRegistry {
    var locks: Locks

    constructor ()
      ensures locks == map[]
    {
      locks := map[];
    }

    /** `try_acquire_upgrade_with_ttl` with the default TTL. */
    method TryAcquire(rawId: string, now: Instant, later: Instant) returns (guard: Option<UpgradeGuard>)
      modifies this
      ensures locks == Acquired(old(locks), Trim(rawId), now, later)
      ensures guard == if Refuses(old(locks), Trim(rawId), now) then None else Some(UpgradeGuard(Trim(rawId), later))
    {
      var cleanId := Trim(rawId);
      if cleanId in locks {
        if Young(locks[cleanId], now) {
          return None;
        }
        locks := locks - {cleanId};
      }
      locks := locks[cleanId := later];
      guard := Some(UpgradeGuard(cleanId, later));
    }

    /** `Drop for UpgradeGuard` */
    method Drop(guard: UpgradeGuard)
      modifies this
      ensures locks == Dropped(old(locks), guard)
    {
      if guard.moduleId in locks {
        if locks[guard.moduleId] == guard.acquiredAt {
          locks := locks - {guard.moduleId};
        }
      }
    }

    /** `get_in_flight_upgrades`. `order` is the order in which the pruned map yields its keys. */
    method InFlight(readings: map<string, Instant>, order: seq<string>) returns (ids: seq<string>)
      requires locks.Keys <= readings.Keys
      requires Distinct(order) && forall id :: id in order <==> id in Pruned(locks, readings)
      modifies this
      ensures locks == Pruned(old(locks), readings)
      ensures Ascending(ids) && forall id :: id in ids <==> id in locks
    {
      locks := map id | id in locks && Young(locks[id], readings[id]) :: locks[id];
      ids := Sort(order);
    }
  }

  // ---------------------------------------------------------------- all interleavings

  /** The clock, the map and the guards that are alive, each under a name of its own. */
  datatype State = State(clock: Instant, locks: Locks, guards: map<nat, UpgradeGuard>)

  datatype Step =
    | Acquire(rawId: string, now: Instant, later: Instant, name: nat)
    | DropGuard(name: nat)
    | List(readings: map<string, Instant>, end: Instant)

  /** The clock never goes back, within a step or between steps; it may stand still. */
  predicate Enabled(s: State, step: Step) {
    match step
    case Acquire(rawId, now, later, name) => s.clock <= now <= later && name !in s.guards
    case DropGuard(name) => name in s.guards
    case List(readings, end) =>
      && s.clock <= end && s.locks.Keys <= readings.Keys
      && forall id :: id in readings ==> s.clock <= readings[id] <= end
  }

  function Apply(s: State, step: Step): State
    requires Enabled(s, step)
  {
    match step
    case Acquire(rawId, now, later, name) =>
      var id := Trim(rawId);
      if Refuses(s.locks, id, now) then s.(clock := later)
      else State(later, Acquired(s.locks, id, now, later), s.guards[name := UpgradeGuard(id, later)])
    case DropGuard(name) => s.(locks := Dropped(s.locks, s.guards[name]), guards := s.guards - {name})
    case List(readings, end) => s.(clock := end, locks := Pruned(s.locks, readings))
  }

  ghost predicate Run(states: seq<State>, steps: seq<Step>) {
    && |states| == |steps| + 1
    && states[0].locks == map[] && states[0].guards == map[]
    && forall i :: 0 <= i < |steps| ==> Enabled(states[i], steps[i]) && states[i + 1] == Apply(states[i], steps[i])
  }

  /** The guard called `name` holds the lock that is in the map for its module. */
  predicate Owns(s: State, name: nat) {
    && name in s.guards && s.guards[name].moduleId in s.locks
    && s.locks[s.guards[name].moduleId] == s.guards[name].acquiredAt
  }

  ghost predicate HasOwner(s: State, id: string) {
    exists k :: Owns(s, k) && s.guards[k].moduleId == id
  }

  ghost predicate EntriesOwned(s: State) {
    forall id :: id in s.locks ==> HasOwner(s, id)
  }

  predicate GuardsPast(s: State) {
    forall k :: k in s.guards ==> s.guards[k].acquiredAt <= s.clock
  }

  predicate YoungGuardsOwn(s: State) {
    forall k :: k in s.guards && Young(s.guards[k].acquiredAt, s.clock) ==> Owns(s, k)
  }

  /** Acquisitions of one module are at least the TTL apart. */
  predicate ApartInTime(g: UpgradeGuard, h: UpgradeGuard) {
    g.acquiredAt + TTL <= h.acquiredAt || h.acquiredAt + TTL <= g.acquiredAt
  }

  predicate GuardsApart(s: State) {
    forall j, k :: j in s.guards && k in s.guards && j != k && s.guards[j].moduleId == s.guards[k].moduleId
                   ==> ApartInTime(s.guards[j], s.guards[k])
  }

  ghost predicate Inv(s: State) {
    EntriesOwned(s) && GuardsPast(s) && YoungGuardsOwn(s) && GuardsApart(s)
  }

  lemma OwnerRemains(s: State, next: State, id: string)
    requires HasOwner(s, id)
    requires forall k :: Owns(s, k) && s.guards[k].moduleId == id ==> Owns(next, k) && next.guards[k] == s.guards[k]
    ensures HasOwner(next, id)
  {
    var k :| Owns(s, k) && s.guards[k].moduleId == id;
    assert Owns(next, k);
  }

  lemma OldGuardsAreStale(s: State, id: string, now: Instant, k: nat)
    requires Inv(s) && s.clock <= now && !Refuses(s.locks, id, now)
    requires k in s.guards && s.guards[k].moduleId == id
    ensures s.guards[k].acquiredAt + TTL <= now
  {
    if Young(s.guards[k].acquiredAt, s.clock) {
      assert Owns(s, k);
    }
  }

  lemma GrantedKeepsInv(s: State, id: string, now: Instant, later: Instant, name: nat)
    requires Inv(s) && s.clock <= now <= later && name !in s.guards && !Refuses(s.locks, id, now)
    ensures Inv(State(later, s.locks[id := later], s.guards[name := UpgradeGuard(id, later)]))
  {
    hide HasOwner;
    var next := State(later, s.locks[id := later], s.guards[name := UpgradeGuard(id, later)]);
    forall k | k in s.guards && s.guards[k].moduleId == id
      ensures s.guards[k].acquiredAt + TTL <= now
    {
      OldGuardsAreStale(s, id, now, k);
    }
    assert GuardsApart(next);
    assert YoungGuardsOwn(next);
    forall i | i in next.locks
      ensures HasOwner(next, i)
    {
      if i == id {
        NewGuardOwns(next, name);
      } else {
        OwnerRemains(s, next, i);
      }
    }
  }

  lemma NewGuardOwns(s: State, name: nat)
    requires Owns(s, name)
    ensures HasOwner(s, s.guards[name].moduleId)
  {
  }

  lemma RefusedKeepsInv(s: State, later: Instant)
    requires Inv(s) && s.clock <= later
    ensures Inv(s.(clock := later))
  {
    hide HasOwner;
    var next := s.(clock := later);
    forall i | i in next.locks
      ensures HasOwner(next, i)
    {
      OwnerRemains(s, next, i);
    }
  }

  lemma DropKeepsInv(s: State, name: nat)
    requires Inv(s) && Enabled(s, DropGuard(name))
    ensures Inv(Apply(s, DropGuard(name)))
  {
    hide HasOwner;
    var next := Apply(s, DropGuard(name));
    forall k | Owns(s, k) && k != name
      ensures Owns(next, k)
    {
      OwnersDiffer(s, name, k);
    }
    forall i | i in next.locks
      ensures HasOwner(next, i)
    {
      OwnerRemains(s, next, i);
    }
  }

  lemma OwnersDiffer(s: State, j: nat, k: nat)
    requires GuardsApart(s) && j in s.guards && Owns(s, k) && j != k
    ensures Owns(Apply(s, DropGuard(j)), k)
  {
  }

  lemma ListKeepsInv(s: State, readings: map<string, Instant>, end: Instant)
    requires Inv(s) && Enabled(s, List(readings, end))
    ensures Inv(Apply(s, List(readings, end)))
  {
    hide HasOwner;
    var next := Apply(s, List(readings, end));
    forall i | i in next.locks
      ensures HasOwner(next, i)
    {
      OwnerRemains(s, next, i);
    }
  }

  lemma FreshInv(s: State)
    requires s.locks == map[] && s.guards == map[]
    ensures Inv(s)
  {
  }

  lemma {:induction false} RunKeepsInv(states: seq<State>, steps: seq<Step>, i: nat)
    requires Run(states, steps) && i < |states|
    ensures Inv(states[i])
  {
    hide Inv, Trim;
    if i == 0 {
      FreshInv(states[0]);
    } else {
      RunKeepsInv(states, steps, i - 1);
      match steps[i - 1]
      case Acquire(rawId, now, later, name) =>
        if Refuses(states[i - 1].locks, Trim(rawId), now) {
          RefusedKeepsInv(states[i - 1], later);
        } else {
          GrantedKeepsInv(states[i - 1], Trim(rawId), now, later, name);
        }
      case DropGuard(name) => DropKeepsInv(states[i - 1], name);
      case List(readings, end) => ListKeepsInv(states[i - 1], readings, end);
    }
  }

  /** Mutual exclusion: in every run, two live guards of one module are never both younger than the
      TTL, not even at a later time before the next step. */
  lemma AtMostOneYoungGuard(states: seq<State>, steps: seq<Step>, i: nat, j: nat, k: nat, now: Instant)
    requires Run(states, steps) && i < |states| && states[i].clock <= now
    requires j in states[i].guards && k in states[i].guards && j != k
    requires states[i].guards[j].moduleId == states[i].guards[k].moduleId
    ensures !(now < states[i].guards[j].acquiredAt + 300_000_000_000 && now < states[i].guards[k].acquiredAt + 300_000_000_000)
  {
    RunKeepsInv(states, steps, i);
  }

  /** Every entry of the map belongs to exactly one live guard. */
  lemma EntryHasOneOwner(states: seq<State>, steps: seq<Step>, i: nat, id: string)
    requires Run(states, steps) && i < |states| && id in states[i].locks
    ensures HasOwner(states[i], id)
    ensures forall j, k :: Owns(states[i], j) && states[i].guards[j].moduleId == id
                           && Owns(states[i], k) && states[i].guards[k].moduleId == id
                           ==> j == k
  {
    RunKeepsInv(states, steps, i);
  }

  /** Dropping a guard takes nothing from any other guard: who owned its lock before owns it still. */
  lemma DropTakesOnlyItsOwn(states: seq<State>, steps: seq<Step>, i: nat, name: nat, other: nat)
    requires Run(states, steps) && i < |states| && name in states[i].guards
    requires other != name && Owns(states[i], other)
    ensures Owns(Apply(states[i], DropGuard(name)), other)
  {
    RunKeepsInv(states, steps, i);
    OwnersDiffer(states[i], name, other);
  }

  /** When every guard has been dropped no lock is left behind. */
  lemma AllDroppedMeansEmpty(states: seq<State>, steps: seq<Step>, i: nat)
    requires Run(states, steps) && i < |states| && states[i].guards == map[]
    ensures states[i].locks == map[]
  {
    RunKeepsInv(states, steps, i);
    assert forall id :: id in states[i].locks ==> HasOwner(states[i], id);
    assert forall id :: id !in states[i].locks;
  }

  /** A live guard of the module was acquired less than five minutes ago. */
  ghost predicate HeldYoung(s: State, id: string, now: Instant) {
    exists k :: k in s.guards && s.guards[k].moduleId == id && now < s.guards[k].acquiredAt + 300_000_000_000
  }

  lemma HeldYoungIsLocked(s: State, id: string, now: Instant)
    requires Inv(s) && s.clock <= now
    ensures HeldYoung(s, id, now) <==> Refuses(s.locks, id, now)
  {
    if Refuses(s.locks, id, now) {
      assert HasOwner(s, id);
      var k :| Owns(s, k) && s.guards[k].moduleId == id;
      FiveMinutes(s.guards[k].acquiredAt, now);
    }
    if HeldYoung(s, id, now) {
      var k :| k in s.guards && s.guards[k].moduleId == id && now < s.guards[k].acquiredAt + 300_000_000_000;
      FiveMinutes(s.guards[k].acquiredAt, s.clock);
      FiveMinutes(s.guards[k].acquiredAt, now);
      assert Owns(s, k);
    }
  }

  lemma FiveMinutes(start: Instant, now: Instant)
    ensures Young(start, now) <==> now < start + 300_000_000_000
  {
  }

  /** An acquisition is refused exactly when a live guard of the module is younger than the TTL. */
  lemma RefusedExactlyWhenHeld(states: seq<State>, steps: seq<Step>, i: nat, rawId: string, now: Instant)
    requires Run(states, steps) && i < |states| && states[i].clock <= now
    ensures Refuses(states[i].locks, Trim(rawId), now)
            <==> HeldYoung(states[i], Trim(rawId), now)
  {
    hide Trim, Inv;
    RunKeepsInv(states, steps, i);
    HeldYoungIsLocked(states[i], Trim(rawId), now);
  }

  /** The listing names exactly the modules held by a guard younger than the TTL. */
  lemma ListingIsExact(states: seq<State>, steps: seq<Step>, i: nat, readings: map<string, Instant>, now: Instant, id: string)
    requires Run(states, steps) && i < |states| && Enabled(states[i], List(readings, now))
    requires forall x :: x in readings ==> readings[x] == now
    ensures id in Pruned(states[i].locks, readings)
            <==> HeldYoung(states[i], id, now)
  {
    hide Inv;
    RunKeepsInv(states, steps, i);
    HeldYoungIsLocked(states[i], id, now);
  }
}
