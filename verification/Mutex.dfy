/** Ownership of a mutex (sync/mutex.s) under every interleaving. mutex_lock runs with interrupts off and is
    one step; mutex_unlock can be preempted between its load, its comparison and its store. */
module Mutex {
  import opened Machine

  /** Where a process is inside mutex_unlock. */
  datatype Pc = Outside | Loaded(seen: nat) | Matched

  /** The owner field (0: unlocked) and the place of each process, by its nonzero address. */
  datatype State = State(owner: nat, pcs: map<nat, Pc>)

  function PcOf(s: State, p: nat): Pc {
    if p in s.pcs then s.pcs[p] else Outside
  }

  const UNLOCKED := State(0, map[])

  datatype Event = Lock(p: nat) | UnlockLoad(p: nat) | UnlockCompare(p: nat) | UnlockStore(p: nat)

  const ERROR_LOCKED := 31       // ERROR_MUTEX_ALREADY_LOCKED
  const ERROR_NOT_OWNED := 32    // ERROR_MUTEX_OWNED_BY_OTHER

  /** One step; None when the process is not at a place where it can take it. */
  function Step(s: State, e: Event): Option<State> {
    if e.p == 0 then None
    else
      match e
      case Lock(p) =>
        if PcOf(s, p) != Outside then None
        else if s.owner == p then Some(s)
        else if s.owner != 0 then Some(s)
        else Some(s.(owner := p))
      case UnlockLoad(p) =>
        if PcOf(s, p) != Outside then None else Some(s.(pcs := s.pcs[p := Loaded(s.owner)]))
      case UnlockCompare(p) =>
        if !PcOf(s, p).Loaded? then None
        else Some(s.(pcs := s.pcs[p := if PcOf(s, p).seen == p then Matched else Outside]))
      case UnlockStore(p) =>
        if PcOf(s, p) != Matched then None else Some(State(0, s.pcs[p := Outside]))
  }

  /** What a call returns at the step that ends it; None while it goes on. */
  function Returns(s: State, e: Event): Option<int> {
    match e
    case Lock(p) => Some(if s.owner == p then 0 else if s.owner != 0 then ERROR_LOCKED else 0)
    case UnlockLoad(p) => None
    case UnlockCompare(p) => if PcOf(s, p) == Loaded(p) then None else Some(ERROR_NOT_OWNED)
    case UnlockStore(p) => Some(0)
  }

  /** The state after the first `n` events of a run. */
  function After(es: seq<Event>, n: nat): Option<State>
    requires n <= |es|
  {
    if n == 0 then Some(UNLOCKED)
    else
      match After(es, n - 1)
      case None => None
      case Some(s) => Step(s, es[n - 1])
  }

  /** A process that has seen itself as owner on its way through mutex_unlock is the owner. */
  ghost predicate Inv(s: State) {
    forall p :: p in s.pcs && p > 0 && (s.pcs[p] == Matched || s.pcs[p] == Loaded(p)) ==> s.owner == p
  }

  lemma StepInv(s: State, e: Event)
    requires Inv(s) && Step(s, e).Some?
    ensures Inv(Step(s, e).value)
  {
  }

  lemma {:induction false} Invariant(es: seq<Event>, n: nat)
    requires n <= |es| && After(es, n).Some?
    ensures Inv(After(es, n).value)
    decreases n
  {
    if n > 0 {
      Invariant(es, n - 1);
      StepInv(After(es, n - 1).value, es[n - 1]);
    }
  }

  /** Only the owner's own unlock store takes ownership away. */
  lemma OwnerStays(s: State, e: Event, p: nat)
    requires Inv(s) && Step(s, e).Some? && s.owner == p && p > 0 && e != UnlockStore(p)
    ensures Step(s, e).value.owner == p
  {
  }

  /** Event `i` of a run ends a call that returns `code`. */
  ghost predicate ReturnsAt(es: seq<Event>, i: nat, code: int) {
    i < |es| && After(es, i).Some? && After(es, i + 1).Some? && Returns(After(es, i).value, es[i]) == Some(code)
  }

  /** Event `i` is a lock by `p` that returned success. */
  ghost predicate LockedAt(es: seq<Event>, i: nat, p: nat) {
    i < |es| && es[i] == Lock(p) && ReturnsAt(es, i, 0)
  }

  /** `p` has not stored to the mutex between events `i` and `j`. */
  ghost predicate NotReleased(es: seq<Event>, i: nat, j: nat, p: nat)
    requires j <= |es|
  {
    forall k :: i < k < j ==> es[k] != UnlockStore(p)
  }

  /** In the first `n` events `p` has locked the mutex and not released it since. */
  ghost predicate Holds(es: seq<Event>, n: nat, p: nat)
    requires n <= |es|
  {
    exists i: nat :: i < n && LockedAt(es, i, p) && NotReleased(es, i, n, p)
  }

  /** Mutual exclusion: from a successful lock until its own unlock store `p` owns the mutex. */
  lemma {:induction false} HolderOwns(es: seq<Event>, i: nat, j: nat, p: nat)
    requires LockedAt(es, i, p) && i < j <= |es| && After(es, j).Some? && NotReleased(es, i, j, p)
    ensures After(es, j).value.owner == p && p > 0
    decreases j
  {
    if i + 1 < j {
      HolderOwns(es, i, j - 1, p);
      Invariant(es, j - 1);
      OwnerStays(After(es, j - 1).value, es[j - 1], p);
    }
  }

  /** Meanwhile no other process gets it. */
  lemma NobodyElseLocks(es: seq<Event>, i: nat, k: nat, p: nat, q: nat)
    requires LockedAt(es, i, p) && i < k < |es| && NotReleased(es, i, k, p) && p != q
    ensures !LockedAt(es, k, q)
  {
    if After(es, k).Some? {
      HolderOwns(es, i, k, p);
    }
  }

  /** The owner has locked the mutex and not released it: what the field says is what the calls did. */
  lemma {:induction false} OwnerHolds(es: seq<Event>, n: nat)
    requires n <= |es| && After(es, n).Some? && After(es, n).value.owner != 0
    ensures Holds(es, n, After(es, n).value.owner)
    decreases n
  {
    if n > 0 {
      var s, p := After(es, n - 1).value, After(es, n).value.owner;
      Invariant(es, n - 1);
      if s.owner == p {
        OwnerHolds(es, n - 1);
        var i: nat :| i < n - 1 && LockedAt(es, i, p) && NotReleased(es, i, n - 1, p);
        assert es[n - 1] != UnlockStore(p);
        assert NotReleased(es, i, n, p);
      } else {
        assert LockedAt(es, n - 1, p) && NotReleased(es, n - 1, n, p);
      }
    }
  }

  /** A lock is refused exactly when another process has locked the mutex and not yet released it. */
  lemma RefusedIff(es: seq<Event>, k: nat, q: nat)
    requires k < |es| && es[k] == Lock(q) && After(es, k + 1).Some?
    ensures ReturnsAt(es, k, ERROR_LOCKED) <==> exists p: nat :: p != q && Holds(es, k, p)
    ensures ReturnsAt(es, k, 0) <==> !ReturnsAt(es, k, ERROR_LOCKED)
  {
    var s := After(es, k).value;
    if s.owner != 0 && s.owner != q {
      OwnerHolds(es, k);
    }
    if p: nat :| p != q && Holds(es, k, p) {
      var i: nat :| i < k && LockedAt(es, i, p) && NotReleased(es, i, k, p);
      HolderOwns(es, i, k, p);
    }
  }

  /** The store of an unlock frees the mutex, and the next lock, by whomever, gets it. */
  lemma {:induction false} ReleasedThenTaken(es: seq<Event>, i: nat, k: nat, p: nat, q: nat)
    requires i < k < |es| && es[i] == UnlockStore(p) && es[k] == Lock(q) && After(es, k + 1).Some?
    requires forall j :: i < j < k ==> !es[j].Lock?
    ensures After(es, k).value.owner == 0 && LockedAt(es, k, q) && After(es, k + 1).value.owner == q
  {
    StillFree(es, i, k, p);
  }

  lemma {:induction false} StillFree(es: seq<Event>, i: nat, k: nat, p: nat)
    requires i < k <= |es| && es[i] == UnlockStore(p) && After(es, k).Some? && forall j :: i < j < k ==> !es[j].Lock?
    ensures After(es, k).value.owner == 0
    decreases k
  {
    if i + 1 < k {
      StillFree(es, i, k - 1, p);
    }
  }

  /** An unlock is turned away exactly when its process did not hold the mutex when it loaded the owner. */
  lemma TurnedAwayIff(es: seq<Event>, i: nat, k: nat, p: nat)
    requires i < k < |es| && es[i] == UnlockLoad(p) && es[k] == UnlockCompare(p) && After(es, k + 1).Some?
    requires forall j :: i < j < k ==> es[j].p != p
    ensures ReturnsAt(es, k, ERROR_NOT_OWNED) <==> !Holds(es, i, p)
  {
    StillLoaded(es, i, k, p);
    var s := After(es, i).value;
    if s.owner == p {
      OwnerHolds(es, i);
    }
    if Holds(es, i, p) {
      var j: nat :| j < i && LockedAt(es, j, p) && NotReleased(es, j, i, p);
      HolderOwns(es, j, i, p);
    }
  }

  lemma {:induction false} StillLoaded(es: seq<Event>, i: nat, k: nat, p: nat)
    requires i < k <= |es| && es[i] == UnlockLoad(p) && After(es, k).Some? && forall j :: i < j < k ==> es[j].p != p
    ensures After(es, i).Some? && p > 0 && PcOf(After(es, k).value, p) == Loaded(After(es, i).value.owner)
    decreases k
  {
    if i + 1 < k {
      StillLoaded(es, i, k - 1, p);
    }
  }

  /** In the first `n` events `p` has begun an unlock and not come back from it. */
  ghost predicate Unlocking(es: seq<Event>, n: nat, p: nat)
    requires n <= |es|
  {
    exists i: nat :: i < n && es[i].p == p && (forall j :: i < j < n ==> es[j].p != p) && GoesOn(es, i)
  }

  /** Event `i` leaves its process inside mutex_unlock. */
  ghost predicate GoesOn(es: seq<Event>, i: nat) {
    i < |es| && After(es, i).Some? && Returns(After(es, i).value, es[i]) == None
  }

  lemma {:induction false} InsideIff(es: seq<Event>, n: nat, p: nat)
    requires n <= |es| && After(es, n).Some?
    ensures PcOf(After(es, n).value, p) != Outside <==> Unlocking(es, n, p)
    decreases n
  {
    if n > 0 {
      InsideIff(es, n - 1, p);
      if es[n - 1].p == p {
        assert GoesOn(es, n - 1) ==> Unlocking(es, n, p);
      } else if Unlocking(es, n - 1, p) {
        var i: nat :| i < n - 1 && es[i].p == p && (forall j :: i < j < n - 1 ==> es[j].p != p) && GoesOn(es, i);
        assert forall j :: i < j < n ==> es[j].p != p;
      }
    }
  }

  /** A process can begin a lock or an unlock exactly when it is not inside an unlock already. */
  lemma ReadyIff(es: seq<Event>, n: nat, p: nat)
    requires n <= |es| && After(es, n).Some? && p > 0
    ensures Step(After(es, n).value, Lock(p)).Some? <==> !Unlocking(es, n, p)
    ensures Step(After(es, n).value, UnlockLoad(p)).Some? <==> !Unlocking(es, n, p)
  {
    InsideIff(es, n, p);
  }

  /** The return values: a lock, another process refused and turned away, the unlock, and the other's turn. */
  lemma Handover(p: nat, q: nat)
    requires 0 < p && 0 < q && p != q
    ensures var es := [Lock(p), Lock(q), UnlockLoad(q), UnlockCompare(q), UnlockLoad(p), UnlockCompare(p), UnlockStore(p), Lock(q)];
            && ReturnsAt(es, 0, 0) && ReturnsAt(es, 1, 31) && GoesOn(es, 2) && ReturnsAt(es, 3, 32)
            && GoesOn(es, 4) && GoesOn(es, 5) && ReturnsAt(es, 6, 0) && ReturnsAt(es, 7, 0)
  {
    var es := [Lock(p), Lock(q), UnlockLoad(q), UnlockCompare(q), UnlockLoad(p), UnlockCompare(p), UnlockStore(p), Lock(q)];
    var none: map<nat, Pc> := map[];
    var turned := none[q := Loaded(p)][q := Outside];
    assert After(es, 0) == Some(UNLOCKED);
    assert After(es, 1) == After(es, 2) == Some(State(p, none));
    assert After(es, 3) == Some(State(p, none[q := Loaded(p)]));
    assert After(es, 4) == Some(State(p, turned));
    assert After(es, 5) == Some(State(p, turned[p := Loaded(p)]));
    assert After(es, 6) == Some(State(p, turned[p := Loaded(p)][p := Matched]));
    assert After(es, 7) == Some(State(0, turned[p := Loaded(p)][p := Matched][p := Outside]));
    assert After(es, 8).Some?;
  }

  /** The holder's unlock goes through: from its load on, whatever others do, it reaches the store. */
  lemma {:induction false} HolderUnlocks(es: seq<Event>, i: nat, j: nat, p: nat)
    requires i < j <= |es| && After(es, j).Some? && After(es, i).Some? && es[i] == UnlockLoad(p)
    requires After(es, i).value.owner == p && NotReleased(es, i, j, p)
    ensures After(es, j).value.owner == p && p > 0
    ensures PcOf(After(es, j).value, p) == Loaded(p) || PcOf(After(es, j).value, p) == Matched
    decreases j
  {
    if i + 1 < j {
      HolderUnlocks(es, i, j - 1, p);
      Invariant(es, j - 1);
      OwnerStays(After(es, j - 1).value, es[j - 1], p);
    }
  }
}
