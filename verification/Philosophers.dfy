/**
 The dining philosophers as a step relation: a ring of processes over a semaphore of permits
 and one semaphore per fork. The program has five philosophers and two permits.
 */
module Philosophers {
  import opened Arith

  // How often each philosopher eats.
  const MEALS := 3

  /** The place in the loop body, and the meals finished. */
  datatype Place = WantPermit | WantLeft | WantRight | Eating | LeftBack | RightBack
  datatype Philosopher = Philosopher(place: Place, meals: nat)

  datatype Table = Table(people: seq<Philosopher>, permits: nat, forks: seq<nat>)

  /** Philosopher i sits between fork i and this one. */
  function Right(i: nat, n: nat): nat {
    if i + 1 == n then 0 else i + 1
  }

  function Neighbour(i: nat, n: nat): nat
    requires i < n
  {
    if i == 0 then n - 1 else i - 1
  }

  function Init(n: nat, p: nat): Table {
    Table(seq(n, _ => Philosopher(WantPermit, 0)), p, seq(n, _ => 1))
  }

  ghost predicate Seated(t: Table) {
    |t.forks| == |t.people| >= 2
  }

  predicate Enabled(t: Table, i: nat)
    requires Seated(t) && i < |t.people|
  {
    match t.people[i].place
    case WantPermit => t.people[i].meals < MEALS && t.permits > 0
    case WantLeft => t.forks[i] > 0
    case WantRight => t.forks[Right(i, |t.people|)] > 0
    case _ => true
  }

  /** One semaphore operation of philosopher i. */
  function Step(t: Table, i: nat): Table
    requires Seated(t) && i < |t.people| && Enabled(t, i)
  {
    var r, m := Right(i, |t.people|), t.people[i].meals;
    match t.people[i].place
    case WantPermit => Table(t.people[i := Philosopher(WantLeft, m)], t.permits - 1, t.forks)
    case WantLeft => Table(t.people[i := Philosopher(WantRight, m)], t.permits, t.forks[i := t.forks[i] - 1])
    case WantRight => Table(t.people[i := Philosopher(Eating, m)], t.permits, t.forks[r := t.forks[r] - 1])
    case Eating => Table(t.people[i := Philosopher(LeftBack, m)], t.permits, t.forks[i := t.forks[i] + 1])
    case LeftBack => Table(t.people[i := Philosopher(RightBack, m)], t.permits, t.forks[r := t.forks[r] + 1])
    case RightBack => Table(t.people[i := Philosopher(WantPermit, m + 1)], t.permits + 1, t.forks)
  }

  /** One turn of a philosopher's loop, undisturbed: a permit, the left fork, the next one, and back in that order. */
  lemma OneMeal(t: Table, i: nat) returns (t1: Table, t2: Table, t3: Table, t4: Table, t5: Table, t6: Table)
    requires Seated(t) && i < |t.people| && t.people[i].place == WantPermit && t.people[i].meals < 3
    requires t.permits > 0 && t.forks[i] > 0 && t.forks[(i + 1) % |t.people|] > 0
    ensures Follows(t, i, t1) && Follows(t1, i, t2) && Follows(t2, i, t3)
    ensures Follows(t3, i, t4) && Follows(t4, i, t5) && Follows(t5, i, t6)
    ensures t3.people[i].place == Eating
    ensures t1.permits == t2.permits == t3.permits == t4.permits == t5.permits == t.permits - 1 && t6.permits == t.permits
    ensures var r := (i + 1) % |t.people|; var left := t.forks[i := t.forks[i] - 1];
            && t1.forks == t.forks && t2.forks == left && t3.forks == left[r := t.forks[r] - 1]
            && t4.forks == t.forks[r := t.forks[r] - 1] && t5.forks == t.forks && t6.forks == t.forks
    ensures t6.people == t.people[i := Philosopher(WantPermit, t.people[i].meals + 1)]
  {
    RightIsNext(i, |t.people|);
    t1 := Step(t, i);
    t2 := Step(t1, i);
    t3 := Step(t2, i);
    t4 := Step(t3, i);
    t5 := Step(t4, i);
    t6 := Step(t5, i);
  }

  ghost predicate Follows(t: Table, i: nat, t': Table) {
    Seated(t) && i < |t.people| && Enabled(t, i) && t' == Step(t, i)
  }

  lemma RightIsNext(i: nat, n: nat)
    requires i < n
    ensures Right(i, n) == (i + 1) % n && Neighbour(i, n) == (i + n - 1) % n
  {
    DivModUnique(i + 1, if i + 1 == n then 1 else 0, Right(i, n), n);
    DivModUnique(i + n - 1, if i == 0 then 0 else 1, Neighbour(i, n), n);
  }

  // ----- what is held -----

  predicate HoldsLeft(h: Philosopher) {
    h.place.WantRight? || h.place.Eating?
  }

  predicate HoldsRight(h: Philosopher) {
    h.place.Eating? || h.place.LeftBack?
  }

  predicate HoldsPermit(h: Philosopher) {
    !h.place.WantPermit?
  }

  function One(b: bool): nat {
    if b then 1 else 0
  }

  /** The philosophers who hold fork f: the one to whom it is the left fork, and the neighbour. */
  function Holders(t: Table, f: nat): nat
    requires f < |t.people|
  {
    One(HoldsLeft(t.people[f])) + One(HoldsRight(t.people[Neighbour(f, |t.people|)]))
  }

  function PermitsHeld(people: seq<Philosopher>): nat {
    if people == [] then 0 else One(HoldsPermit(people[0])) + PermitsHeld(people[1..])
  }

  /** Every fork is on the table or in one hand; every permit is free or with one philosopher. */
  ghost predicate Conserved(t: Table, p: nat) {
    && Seated(t) && t.permits + PermitsHeld(t.people) == p
    && (forall f :: 0 <= f < |t.people| ==> t.forks[f] + Holders(t, f) == 1)
    && (forall i :: 0 <= i < |t.people| ==> Sated(t.people[i]))
  }

  predicate Sated(h: Philosopher) {
    h.meals <= MEALS && (h.meals == MEALS ==> h.place.WantPermit?)
  }

  ghost predicate AllDone(t: Table) {
    forall i :: 0 <= i < |t.people| ==> t.people[i] == Philosopher(WantPermit, MEALS)
  }

  lemma {:induction false} HeldUpdate(people: seq<Philosopher>, i: nat, h: Philosopher)
    requires i < |people|
    ensures PermitsHeld(people[i := h]) == PermitsHeld(people) - One(HoldsPermit(people[i])) + One(HoldsPermit(h))
  {
    if i == 0 {
      assert people[i := h][1..] == people[1..];
    } else {
      assert people[i := h][1..] == people[1..][i - 1 := h];
      HeldUpdate(people[1..], i - 1, h);
    }
  }

  lemma {:induction false} InitConserved(n: nat, p: nat)
    requires n >= 2
    ensures Conserved(Init(n, p), p)
  {
    NoneHeld(Init(n, p).people);
  }

  lemma {:induction false} NoneHeld(people: seq<Philosopher>)
    requires forall i :: 0 <= i < |people| ==> !HoldsPermit(people[i])
    ensures PermitsHeld(people) == 0
  {
    if people != [] { NoneHeld(people[1..]); }
  }

  /** A fork leaves the table for a hand and comes back from it. */
  lemma ForkKept(t: Table, i: nat, f: nat)
    requires Seated(t) && i < |t.people| && Enabled(t, i) && f < |t.people|
    ensures Seated(Step(t, i)) && Step(t, i).forks[f] + Holders(Step(t, i), f) == t.forks[f] + Holders(t, f)
  {
  }

  /** Every step of every philosopher keeps forks and permits. */
  lemma {:induction false} StepConserves(t: Table, p: nat, i: nat)
    requires Conserved(t, p) && i < |t.people| && Enabled(t, i)
    ensures Conserved(Step(t, i), p)
  {
    var t' := Step(t, i);
    HeldUpdate(t.people, i, t'.people[i]);
    forall f | 0 <= f < |t.people|
      ensures t'.forks[f] + Holders(t', f) == 1
    {
      assert t.forks[f] + Holders(t, f) == 1;
      ForkKept(t, i, f);
    }
    assert Sated(t.people[i]);
  }

  /** Two neighbours never hold the fork between them. */
  lemma {:induction false} ForkExclusion(t: Table, p: nat, i: nat)
    requires Conserved(t, p) && i < |t.people|
    ensures !(HoldsRight(t.people[i]) && HoldsLeft(t.people[Right(i, |t.people|)]))
  {
    var f := Right(i, |t.people|);
    assert t.forks[f] + Holders(t, f) == 1;
  }

  /** Who eats has both neighbours wait: no two neighbours eat at the same time. */
  lemma {:induction false} EatingExclusion(t: Table, p: nat, i: nat)
    requires Conserved(t, p) && i < |t.people| && t.people[i].place.Eating?
    ensures !t.people[Right(i, |t.people|)].place.Eating? && !t.people[Neighbour(i, |t.people|)].place.Eating?
  {
    ForkExclusion(t, p, i);
    ForkExclusion(t, p, Neighbour(i, |t.people|));
  }

  // ----- no deadlock -----

  lemma {:induction false} AllHeld(people: seq<Philosopher>)
    requires forall i :: 0 <= i < |people| ==> HoldsPermit(people[i])
    ensures PermitsHeld(people) == |people|
  {
    if people != [] { AllHeld(people[1..]); }
  }

  ghost predicate Stuck(t: Table)
    requires Seated(t)
  {
    forall i :: 0 <= i < |t.people| ==> !Enabled(t, i)
  }

  /** In a stuck state, a philosopher who waits for the right fork waits for a neighbour who does the same. */
  lemma {:induction false} WaitsForNext(t: Table, p: nat, i: nat)
    requires Conserved(t, p) && Stuck(t) && i < |t.people| && t.people[i].place.WantRight?
    ensures t.people[Right(i, |t.people|)].place.WantRight?
  {
    var f := Right(i, |t.people|);
    assert !Enabled(t, i) && !Enabled(t, f);
    assert t.forks[f] + Holders(t, f) == 1;
  }

  /** Once round the table. */
  lemma {:induction false} WaitsAll(t: Table, p: nat, i: nat, j: nat)
    requires Conserved(t, p) && Stuck(t) && i < |t.people| && j < |t.people| && t.people[i].place.WantRight?
    ensures t.people[j].place.WantRight?
    decreases if i <= j then j - i else j - i + |t.people|
  {
    if i != j {
      WaitsForNext(t, p, i);
      WaitsAll(t, p, Right(i, |t.people|), j);
    }
  }

  /** With fewer permits than philosophers, someone can move until all have finished. */
  lemma {:induction false} NoDeadlock(t: Table, p: nat)
    requires Conserved(t, p) && 1 <= p < |t.people| && !AllDone(t)
    ensures exists i :: 0 <= i < |t.people| && Enabled(t, i)
  {
    if Stuck(t) {
      var i :| 0 <= i < |t.people| && t.people[i] != Philosopher(WantPermit, MEALS);
      assert !Enabled(t, i) && Sated(t.people[i]);
      if j :| 0 <= j < |t.people| && t.people[j].place.WantRight? {
        forall k | 0 <= k < |t.people|
          ensures HoldsPermit(t.people[k])
        {
          WaitsAll(t, p, j, k);
        }
        AllHeld(t.people);
      } else {
        NobodyHolds(t, p);
        NoneHeld(t.people);
      }
      assert false;
    }
  }

  /** Stuck with nobody waiting for a right fork: everybody waits for a permit. */
  lemma {:induction false} NobodyHolds(t: Table, p: nat)
    requires Conserved(t, p) && Stuck(t)
    requires forall j :: 0 <= j < |t.people| ==> !t.people[j].place.WantRight?
    ensures forall k :: 0 <= k < |t.people| ==> !HoldsPermit(t.people[k])
  {
    forall k | 0 <= k < |t.people|
      ensures !HoldsPermit(t.people[k])
    {
      var l := Neighbour(k, |t.people|);
      assert !Enabled(t, k) && !Enabled(t, l);
      assert t.forks[k] + Holders(t, k) == 1;
    }
  }

  // ----- every run ends with everybody fed -----

  function Phase(place: Place): nat {
    match place
    case WantPermit => 0
    case WantLeft => 1
    case WantRight => 2
    case Eating => 3
    case LeftBack => 4
    case RightBack => 5
  }

  /** The steps philosopher h still has to take: six for each meal. */
  function ToDo(h: Philosopher): int {
    6 * (MEALS - h.meals) - Phase(h.place)
  }

  function Work(people: seq<Philosopher>): int {
    if people == [] then 0 else ToDo(people[0]) + Work(people[1..])
  }

  lemma {:induction false} WorkUpdate(people: seq<Philosopher>, i: nat, h: Philosopher)
    requires i < |people|
    ensures Work(people[i := h]) == Work(people) - ToDo(people[i]) + ToDo(h)
  {
    if i == 0 {
      assert people[i := h][1..] == people[1..];
    } else {
      assert people[i := h][1..] == people[1..][i - 1 := h];
      WorkUpdate(people[1..], i - 1, h);
    }
  }

  lemma {:induction false} WorkBounds(people: seq<Philosopher>)
    requires forall i :: 0 <= i < |people| ==> Sated(people[i])
    ensures Work(people) >= 0
    ensures Work(people) == 0 <==> forall i :: 0 <= i < |people| ==> people[i] == Philosopher(WantPermit, MEALS)
  {
    if people != [] {
      assert Sated(people[0]);
      WorkBounds(people[1..]);
      forall i | 0 <= i < |people| && Work(people) == 0
        ensures people[i] == Philosopher(WantPermit, MEALS)
      {
        if i > 0 { assert people[i] == people[1..][i - 1]; }
      }
      assert forall i :: 0 < i < |people| ==> people[i] == people[1..][i - 1];
    }
  }

  lemma {:induction false} InitWork(people: seq<Philosopher>)
    requires forall i :: 0 <= i < |people| ==> people[i] == Philosopher(WantPermit, 0)
    ensures Work(people) == 6 * MEALS * |people|
  {
    if people != [] { InitWork(people[1..]); }
  }

  /** A schedule says who moves next; it is a run if everybody it names can move. */
  ghost predicate IsRun(t: Table, schedule: seq<nat>)
    requires Seated(t)
    decreases |schedule|
  {
    schedule != [] ==>
      schedule[0] < |t.people| && Enabled(t, schedule[0]) && IsRun(Step(t, schedule[0]), schedule[1..])
  }

  ghost function After(t: Table, schedule: seq<nat>): Table
    requires Seated(t) && IsRun(t, schedule)
    decreases |schedule|
  {
    if schedule == [] then t else After(Step(t, schedule[0]), schedule[1..])
  }

  lemma {:induction false} StepWorks(t: Table, i: nat)
    requires Seated(t) && i < |t.people| && Enabled(t, i)
    ensures Seated(Step(t, i)) && |Step(t, i).people| == |t.people|
    ensures Work(Step(t, i).people) == Work(t.people) - 1
  {
    WorkUpdate(t.people, i, Step(t, i).people[i]);
  }

  /** Any interleaving keeps forks and permits, and each of its steps is one of the 6 * 3 per philosopher. */
  lemma {:induction false} RunKeeps(t: Table, p: nat, schedule: seq<nat>)
    requires Conserved(t, p) && IsRun(t, schedule)
    ensures Conserved(After(t, schedule), p) && |After(t, schedule).people| == |t.people|
    ensures Work(After(t, schedule).people) + |schedule| == Work(t.people)
    decreases |schedule|
  {
    if schedule != [] {
      hide Step, Enabled, Conserved, Work;
      var i := schedule[0];
      StepConserves(t, p, i);
      StepWorks(t, i);
      RunKeeps(Step(t, i), p, schedule[1..]);
    }
  }

  /** When all have finished, every semaphore is back at its first value. */
  lemma {:induction false} Restored(t: Table, p: nat)
    requires Conserved(t, p) && AllDone(t)
    ensures t.permits == p && forall f :: 0 <= f < |t.forks| ==> t.forks[f] == 1
  {
    NoneHeld(t.people);
    forall f | 0 <= f < |t.forks|
      ensures t.forks[f] == 1
    {
      assert t.forks[f] + Holders(t, f) == 1;
    }
  }

  /**
   Every run from the start, whatever the interleaving: at most 18 steps per philosopher; it
   can go on exactly when it is shorter than that, and at that length everybody has eaten three
   times and every semaphore has its first value again.
   */
  lemma {:induction false} EveryRun(n: nat, p: nat, schedule: seq<nat>)
    requires n >= 2 && 1 <= p < n && IsRun(Init(n, p), schedule)
    ensures var t := After(Init(n, p), schedule);
            && Seated(t) && |t.people| == n && |schedule| <= 18 * n
            && ((exists i :: 0 <= i < n && Enabled(t, i)) <==> |schedule| < 18 * n)
            && (|schedule| == 18 * n ==>
                  && (forall i :: 0 <= i < n ==> t.people[i] == Philosopher(WantPermit, 3))
                  && t.permits == p && forall f :: 0 <= f < n ==> t.forks[f] == 1)
  {
    var t0 := Init(n, p);
    InitConserved(n, p);
    InitWork(t0.people);
    RunKeeps(t0, p, schedule);
    var t := After(t0, schedule);
    WorkBounds(t.people);
    if AllDone(t) {
      Restored(t, p);
      assert forall i :: 0 <= i < n ==> !Enabled(t, i);
    } else {
      NoDeadlock(t, p);
    }
  }

  // ----- deadlock without a waiter -----

  /** The first k have their permits, nobody has a fork. */
  function Permitted(n: nat, p: nat, k: nat): Table
    requires k <= p
  {
    Table(seq(n, i => Philosopher(if i < k then WantLeft else WantPermit, 0)), p - k, seq(n, _ => 1))
  }

  /** Everybody has a permit, the first k have their left forks too. */
  function LeftInHand(n: nat, p: nat, k: nat): Table
    requires n <= p
  {
    Table(seq(n, i => Philosopher(if i < k then WantRight else WantLeft, 0)), p - n, seq(n, i => if i < k then 0 else 1))
  }

  lemma {:induction false} TakeLeftForks(n: nat, p: nat, k: nat) returns (schedule: seq<nat>)
    requires 2 <= n <= p && k <= n
    ensures IsRun(LeftInHand(n, p, k), schedule) && After(LeftInHand(n, p, k), schedule) == LeftInHand(n, p, n)
    decreases n - k
  {
    if k == n {
      schedule := [];
    } else {
      var rest := TakeLeftForks(n, p, k + 1);
      schedule := [k] + rest;
      assert schedule[1..] == rest;
      assert Step(LeftInHand(n, p, k), k) == LeftInHand(n, p, k + 1);
    }
  }

  lemma {:induction false} TakePermits(n: nat, p: nat, k: nat) returns (schedule: seq<nat>)
    requires 2 <= n <= p && k <= n
    ensures IsRun(Permitted(n, p, k), schedule) && After(Permitted(n, p, k), schedule) == LeftInHand(n, p, n)
    decreases n - k
  {
    if k == n {
      assert Permitted(n, p, n) == LeftInHand(n, p, 0);
      schedule := TakeLeftForks(n, p, 0);
    } else {
      var rest := TakePermits(n, p, k + 1);
      schedule := [k] + rest;
      assert schedule[1..] == rest;
      assert Step(Permitted(n, p, k), k) == Permitted(n, p, k + 1);
    }
  }

  /** With a permit for each philosopher, all may take one and then the left fork: nobody can go on. */
  lemma {:induction false} DeadlockWithoutWaiter(n: nat, p: nat) returns (schedule: seq<nat>)
    requires 2 <= n <= p
    ensures IsRun(Init(n, p), schedule) && Seated(After(Init(n, p), schedule))
    ensures Stuck(After(Init(n, p), schedule)) && !AllDone(After(Init(n, p), schedule))
  {
    assert Init(n, p) == Permitted(n, p, 0);
    schedule := TakePermits(n, p, 0);
    assert LeftInHand(n, p, n).people[0].place.WantRight?;
  }

  /** In every state that a run from the start can reach, somebody can move or everybody has finished. */
  ghost predicate DeadlockFree(n: nat, p: nat)
    requires n >= 2
  {
    forall schedule | IsRun(Init(n, p), schedule) ::
      var t := After(Init(n, p), schedule); Seated(t) && (Stuck(t) ==> AllDone(t))
  }

  /** The waiter's permits rule out deadlock exactly when there are some, but fewer than philosophers. */
  lemma {:induction false} DeadlockFreeExactly(n: nat, p: nat)
    requires n >= 2
    ensures DeadlockFree(n, p) <==> 1 <= p < n
  {
    if p >= n {
      var schedule := DeadlockWithoutWaiter(n, p);
    } else if p == 0 {
      var t := Init(n, 0);
      assert IsRun(t, []) && After(t, []) == t && t.people[0].meals == 0;
      assert Stuck(t) && !AllDone(t);
    } else {
      forall schedule | IsRun(Init(n, p), schedule)
        ensures var t := After(Init(n, p), schedule); Seated(t) && (Stuck(t) ==> AllDone(t))
      {
        InitConserved(n, p);
        RunKeeps(Init(n, p), p, schedule);
        var t := After(Init(n, p), schedule);
        if !AllDone(t) { NoDeadlock(t, p); }
      }
    }
  }
}
