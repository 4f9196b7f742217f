/**
 The intersection on the kernel's own locks: the cars of kern/asst1/stoplight.c
 are threads that call lock_acquire and lock_release of thread/synch.c, under
 the round-robin scheduler and any timer interrupts. Each such call, and each
 return from a sleep, is one step of the abstract intersection or none.
 */
module StoplightLocks {
  import opened Threads
  import L = Synch
  import S = Stoplight

  function LockNo(l: S.Lock): nat {
    match l
    case Car1 => 0
    case Car2 => 1
    case N => 2
    case E => 3
    case S => 4
    case W => 5
    case NW => 6
    case SW => 7
    case SE => 8
    case NE => 9
  }

  /** The threads and locks, as far as the cars have to do with them. */
  datatype View = View(cur: int, ready: seq<nat>, sleepers: seq<nat>, threads: set<nat>, doing: map<nat, L.Doing>,
                       owner: map<nat, nat>)

  ghost function Of(k: L.Synch): View
    reads k, k.th
  {
    View(k.th.s.cur, k.th.s.ready, k.th.s.sleepers, k.th.s.pc.Keys, k.doing, k.owner)
  }

  predicate SameOwner(owner: map<nat, nat>, cars: map<S.Lock, nat>, l: S.Lock) {
    (LockNo(l) in owner <==> l in cars) && (l in cars && LockNo(l) in owner ==> owner[LockNo(l)] == cars[l])
  }

  /** The call that a thread will go on with is for the lock its car wants next. */
  predicate AskedFor(c: S.Car, d: L.Doing) {
    && c.dir < 4 && c.pc < S.Length(c.turn)
    && var op := S.OpAt(c.dir, c.turn, c.pc); op.Acq? && d == L.InAcquire(LockNo(op.lock))
  }

  /** Car i is thread i, once it has been forked. */
  predicate CarOk(v: View, w: S.World, forked: nat, i: nat)
    requires i < |w.cars|
  {
    var c := w.cars[i];
    && (i in v.threads <==> i < forked) && (i >= forked ==> c.pc == 0)
    && (c.asleep <==> i in v.sleepers)
    && (i < forked && !S.Finished(c) ==> i == v.cur || i in v.ready || i in v.sleepers)
    && (i in v.doing ==> AskedFor(c, v.doing[i]))
  }

  /** There are no threads but the cars and the one that creates them, which takes no lock. */
  predicate Known(v: View, n: nat, t: nat) {
    (t in v.ready || t == v.cur ==> t <= n) && (t in v.sleepers || t in v.doing ==> t < n)
  }

  ghost predicate Matches(v: View, w: S.World, forked: nat) {
    var n := |w.cars|;
    && S.Good(w) && forked <= n && v.cur >= NONE
    && (forall l: S.Lock {:trigger SameOwner(v.owner, w.owner, l)} :: SameOwner(v.owner, w.owner, l))
    && (forall i: nat {:trigger CarOk(v, w, forked, i)} | i < n :: CarOk(v, w, forked, i))
    && (forall t: nat {:trigger Known(v, n, t)} :: Known(v, n, t))
    && (forall x {:trigger x in v.owner} | x in v.owner :: x < 10)
    && (forked < n ==> v.cur == n || n in v.ready)
  }

  // ---- What the locks' own invariant says ------------------------------

  lemma ThreadFacts(k: L.Synch, t: nat)
    requires k.Valid()
    ensures t == k.th.s.cur ==> t in k.th.s.pc && t !in k.doing && t !in k.th.s.ready && t !in k.th.s.sleepers
    ensures t in k.th.s.ready ==> t in k.th.s.pc && t !in k.th.s.sleepers
    ensures t in k.th.s.sleepers ==> t in k.doing && t in k.th.s.addr && k.th.s.addr[t] == L.AddrOf(k.doing[t])
  {
    assert ThreadOk(k.th.s, k.th.g.place, t) && L.DoingOk(k.th.s.pc, k.doing, k.frame, t);
    assert t in k.th.s.sleepers ==> L.SleeperOk(t, k.th.s.addr, k.doing, k.count, k.owner);
  }

  lemma InTail(xs: seq<nat>, t: nat)
    requires xs != []
    ensures t in xs && t != xs[0] ==> t in xs[1..]
    ensures t in xs[1..] ==> t in xs
  {
    assert xs == [xs[0]] + xs[1..];
  }

  // ---- One step --------------------------------------------------------

  /** The lock is free: the car has it and goes on. */
  lemma GetsLock(v: View, w: S.World, forked: nat, i: nat, l: S.Lock, v': View)
    requires Matches(v, w, forked) && i < forked && S.CanMove(w, i) && w.cars[i].dir < 4
    requires S.NextOp(w.cars[i]) == S.Acq(l)
    requires LockNo(l) !in v.owner && v'.owner == v.owner[LockNo(l) := i] && v'.doing == v.doing - {i}
    requires v'.cur == i && v'.sleepers == v.sleepers && v'.threads == v.threads
    requires v'.ready == v.ready || (v.ready != [] && v.ready[0] == i && v.cur == NONE && v'.ready == v.ready[1..])
    requires v.cur == i || v.cur == NONE
    ensures Matches(v', S.Step(w, i), forked)
  {
    var (w', n) := (S.Step(w, i), |w.cars|);
    S.StepGood(w, i);
    assert SameOwner(v.owner, w.owner, l);
    forall m: S.Lock
      ensures SameOwner(v'.owner, w'.owner, m)
    {
      assert SameOwner(v.owner, w.owner, m);
    }
    assert CarOk(v, w, forked, i);
    forall j: nat | j < n
      ensures CarOk(v', w', forked, j)
    {
      assert CarOk(v, w, forked, j);
      if v'.ready != v.ready {
        InTail(v.ready, j);
      }
    }
    OthersKnown(v, v', w, i);
  }

  /** The lock is taken: the car sleeps on it. */
  lemma Sleeps(v: View, w: S.World, forked: nat, i: nat, l: S.Lock, v': View)
    requires Matches(v, w, forked) && i < forked && S.CanMove(w, i) && w.cars[i].dir < 4
    requires S.NextOp(w.cars[i]) == S.Acq(l)
    requires LockNo(l) in v.owner && v'.owner == v.owner && v'.doing == v.doing[i := L.InAcquire(LockNo(l))]
    requires v'.cur == NONE && v'.sleepers == v.sleepers + [i] && v'.threads == v.threads
    requires v'.ready == v.ready || (v.ready != [] && v.ready[0] == i && v.cur == NONE && v'.ready == v.ready[1..])
    requires v.cur == i || v.cur == NONE
    ensures Matches(v', S.Step(w, i), forked)
  {
    var (w', n) := (S.Step(w, i), |w.cars|);
    S.StepGood(w, i);
    assert SameOwner(v.owner, w.owner, l);
    assert CarOk(v, w, forked, i);
    forall j: nat | j < n
      ensures CarOk(v', w', forked, j)
    {
      assert CarOk(v, w, forked, j);
      if v'.ready != v.ready {
        InTail(v.ready, j);
      }
    }
    OthersKnown(v, v', w, i);
  }

  /** Nobody new turned up, and the creating thread is where it was. */
  lemma OthersKnown(v: View, v': View, w: S.World, i: nat)
    requires (forall t: nat {:trigger Known(v, |w.cars|, t)} :: Known(v, |w.cars|, t)) && i < |w.cars|
    requires v'.doing.Keys <= v.doing.Keys + {i} && (v'.cur == i || v'.cur == NONE) && (v.cur == i || v.cur == NONE)
    requires v'.sleepers == v.sleepers || v'.sleepers == v.sleepers + [i]
    requires v'.ready == v.ready || (v.ready != [] && v.ready[0] == i && v'.ready == v.ready[1..])
    ensures forall t: nat :: Known(v', |w.cars|, t)
    ensures |w.cars| in v.ready ==> |w.cars| in v'.ready
  {
    forall t: nat
      ensures Known(v', |w.cars|, t)
    {
      assert Known(v, |w.cars|, t);
      if v'.ready != v.ready {
        InTail(v.ready, t);
      }
    }
    if v'.ready != v.ready {
      InTail(v.ready, |w.cars|);
    }
  }

  lemma LocksDiffer(l: S.Lock, m: S.Lock)
    ensures LockNo(l) == LockNo(m) ==> l == m
  {}

  /** A release: exactly the cars that want the lock wake up. */
  lemma Released(v: View, w: S.World, forked: nat, i: nat, l: S.Lock, addr: map<nat, nat>, v': View)
    requires Matches(v, w, forked) && v.cur == i < forked && S.CanMove(w, i) && w.cars[i].dir < 4
    requires S.NextOp(w.cars[i]) == S.Rel(l)
    requires forall t: nat | t in v.sleepers :: t in v.doing && t in addr && addr[t] == L.AddrOf(v.doing[t])
    requires var a := L.AddrOf(L.InAcquire(LockNo(l)));
             v' == v.(owner := v.owner - {LockNo(l)}, ready := v.ready + Waiting(v.sleepers, addr, a),
                      sleepers := Others(v.sleepers, addr, a))
    ensures Matches(v', S.Step(w, i), forked)
  {
    var (w', n, a) := (S.Step(w, i), |w.cars|, L.AddrOf(L.InAcquire(LockNo(l))));
    S.StepGood(w, i);
    WaitingOthers(v.sleepers, addr, a);
    forall m: S.Lock
      ensures SameOwner(v'.owner, w'.owner, m)
    {
      assert SameOwner(v.owner, w.owner, m);
      LocksDiffer(l, m);
    }
    forall j: nat | j < n
      ensures CarOk(v', w', forked, j)
    {
      CarReleased(v, w, forked, i, l, addr, v', j);
    }
    forall t: nat
      ensures Known(v', n, t)
    {
      assert Known(v, n, t);
      assert t in v'.ready ==> t in v.ready || t in Waiting(v.sleepers, addr, a);
    }
  }

  lemma CarReleased(v: View, w: S.World, forked: nat, i: nat, l: S.Lock, addr: map<nat, nat>, v': View, j: nat)
    requires Matches(v, w, forked) && v.cur == i < forked && S.CanMove(w, i) && w.cars[i].dir < 4 && j < |w.cars|
    requires S.NextOp(w.cars[i]) == S.Rel(l)
    requires forall t: nat | t in v.sleepers :: t in v.doing && t in addr && addr[t] == L.AddrOf(v.doing[t])
    requires var a := L.AddrOf(L.InAcquire(LockNo(l)));
             v' == v.(owner := v.owner - {LockNo(l)}, ready := v.ready + Waiting(v.sleepers, addr, a),
                      sleepers := Others(v.sleepers, addr, a))
    ensures CarOk(v', S.Step(w, i), forked, j)
  {
    var a := L.AddrOf(L.InAcquire(LockNo(l)));
    var (c, c') := (w.cars[j], S.Step(w, i).cars[j]);
    assert CarOk(v, w, forked, j) && CarOk(v, w, forked, i);
    WaitingOthers(v.sleepers, addr, a);
    assert j in v'.sleepers <==> j in v.sleepers && !SleepsOn(addr, j, a);
    assert j in v.sleepers && SleepsOn(addr, j, a) ==> j in v'.ready;
    if j in v.sleepers {
      var m := S.OpAt(c.dir, c.turn, c.pc).lock;
      LocksDiffer(l, m);
      assert SleepsOn(addr, j, a) <==> LockNo(m) == LockNo(l);
      assert S.Wants(c, l) <==> m == l;
    }
  }

  // ---- Steps that are none of the cars' --------------------------------

  /** The thread at the head of the run queue had not been asleep. */
  lemma Picked(v: View, w: S.World, forked: nat)
    requires Matches(v, w, forked) && v.cur == NONE && v.ready != []
    ensures Matches(v.(cur := v.ready[0], ready := v.ready[1..]), w, forked)
  {
    var v' := v.(cur := v.ready[0], ready := v.ready[1..]);
    forall i: nat | i < |w.cars|
      ensures CarOk(v', w, forked, i)
    {
      assert CarOk(v, w, forked, i);
      InTail(v.ready, i);
    }
    forall t: nat
      ensures Known(v', |w.cars|, t)
    {
      assert Known(v, |w.cars|, t);
      InTail(v.ready, t);
    }
    InTail(v.ready, |w.cars|);
  }

  lemma Preempted(v: View, w: S.World, forked: nat)
    requires Matches(v, w, forked) && v.cur >= 0
    ensures Matches(v.(cur := NONE, ready := v.ready + [v.cur]), w, forked)
  {
    var v' := v.(cur := NONE, ready := v.ready + [v.cur]);
    forall i: nat | i < |w.cars|
      ensures CarOk(v', w, forked, i)
    {
      assert CarOk(v, w, forked, i);
    }
    forall t: nat
      ensures Known(v', |w.cars|, t)
    {
      assert Known(v, |w.cars|, t);
    }
  }

  /** A car that is through, or the creating thread after the last fork. */
  lemma Gone(v: View, w: S.World, forked: nat)
    requires Matches(v, w, forked) && 0 <= v.cur <= |w.cars|
    requires if v.cur < |w.cars| then S.Finished(w.cars[v.cur]) else forked == |w.cars|
    ensures Matches(v.(cur := NONE), w, forked)
  {
    var v' := v.(cur := NONE);
    forall i: nat | i < |w.cars|
      ensures CarOk(v', w, forked, i)
    {
      assert CarOk(v, w, forked, i);
    }
    forall t: nat
      ensures Known(v', |w.cars|, t)
    {
      assert Known(v, |w.cars|, t);
    }
  }

  lemma OneMore(v: View, w: S.World, forked: nat)
    requires Matches(v, w, forked) && v.cur == |w.cars| && forked < |w.cars|
    ensures forked !in v.threads
    ensures Matches(v.(ready := v.ready + [forked], threads := v.threads + {forked}), w, forked + 1)
  {
    var (v', next) := (v.(ready := v.ready + [forked], threads := v.threads + {forked}), forked + 1);
    assert CarOk(v, w, forked, forked);
    forall i: nat | i < |w.cars|
      ensures CarOk(v', w, next, i)
    {
      assert CarOk(v, w, forked, i);
    }
    forall t: nat
      ensures Known(v', |w.cars|, t)
    {
      assert Known(v, |w.cars|, t);
    }
  }

  /** While a car can move, there is a thread to run. */
  lemma MoverRuns(v: View, w: S.World, forked: nat, i: nat)
    requires Matches(v, w, forked) && S.CanMove(w, i)
    ensures v.cur != NONE || v.ready != []
  {
    assert CarOk(v, w, forked, i);
  }

  lemma SleeperIsCar(v: View, w: S.World, forked: nat, t: nat)
    requires Matches(v, w, forked) && t in v.sleepers
    ensures t < |w.cars| && !S.Finished(w.cars[t])
  {
    assert Known(v, |w.cars|, t);
    assert CarOk(v, w, forked, t) && S.SleepOk(w, t);
  }

  lemma LockKept(v: View, w: S.World, forked: nat, x: nat)
    requires Matches(v, w, forked) && x in v.owner
    ensures LockOf(x) in w.owner
  {
    assert SameOwner(v.owner, w.owner, LockOf(x));
  }

  /** The processor never idles for good before every car is through: two cars cannot wait for each other. */
  lemma NeverIdle(v: View, w: S.World, forked: nat)
    requires Matches(v, w, forked) && v.cur == NONE && v.ready == []
    ensures forked == |w.cars| && v.sleepers == [] && v.owner == map[] && w.owner == map[]
    ensures forall i: nat | i < |w.cars| :: S.Finished(w.cars[i])
  {
    forall u: nat | u < |w.cars|
      ensures S.Finished(w.cars[u])
    {
      if !S.Finished(w.cars[u]) {
        var i := S.SomeoneMoves(w, u);
        MoverRuns(v, w, forked, i);
      }
    }
    S.AllFree(w);
    forall x: nat
      ensures x !in v.owner
    {
      if x in v.owner {
        LockKept(v, w, forked, x);
      }
    }
    assert v.owner == map[];
    if v.sleepers != [] {
      SleeperIsCar(v, w, forked, v.sleepers[0]);
    }
  }

  function LockOf(x: nat): (l: S.Lock)
    ensures x < 10 ==> LockNo(l) == x
  {
    if x == 0 then S.Car1 else if x == 1 then S.Car2 else if x == 2 then S.N else if x == 3 then S.E
    else if x == 4 then S.S else if x == 5 then S.W else if x == 6 then S.NW else if x == 7 then S.SW
    else if x == 8 then S.SE else S.NE
  }

  // ---- On the real locks -----------------------------------------------

  /** The current thread is a car: its next call of lock_acquire or lock_release is the car's next step. */
  method CarStep(k: L.Synch, w: S.World, ghost forked: nat) returns (w': S.World)
    requires k.Valid() && Matches(Of(k), w, forked)
    requires 0 <= k.th.s.cur < |w.cars| && !S.Finished(w.cars[k.th.s.cur])
    modifies k, k.th
    ensures k.Valid() && Matches(Of(k), w', forked)
    ensures S.CanMove(w, old(k.th.s).cur) && w.cars[old(k.th.s).cur].dir < 4 && w' == S.Step(w, old(k.th.s).cur)
  {
    var i: nat := k.th.s.cur;
    ghost var v := Of(k);
    ThreadFacts(k, i);
    assert CarOk(v, w, forked, i) && S.SleepOk(w, i);
    w' := S.Step(w, i);
    match S.NextOp(w.cars[i])
    case Acq(l) =>
      assert v.doing - {i} == v.doing;
      k.Acquire(LockNo(l));
      if k.th.s.cur == NONE {
        Sleeps(v, w, forked, i, l, Of(k));
      } else {
        GetsLock(v, w, forked, i, l, Of(k));
      }
    case Rel(l) =>
      S.StepGood(w, i);
      assert SameOwner(v.owner, w.owner, l);
      ghost var addr := k.th.s.addr;
      forall t: nat | t in v.sleepers
        ensures t in v.doing && t in addr && addr[t] == L.AddrOf(v.doing[t])
      {
        ThreadFacts(k, t);
      }
      k.Release(LockNo(l));
      Released(v, w, forked, i, l, addr, Of(k));
  }

  /** A context switch: a thread back from a sleep tries its lock again, which is its car's next step. */
  method SwitchStep(k: L.Synch, w: S.World, ghost forked: nat) returns (w': S.World, ghost stepped: bool)
    requires k.Valid() && Matches(Of(k), w, forked) && k.th.s.cur == NONE && k.th.s.ready != []
    modifies k, k.th
    ensures k.Valid() && Matches(Of(k), w', forked) && |w'.cars| == |w.cars|
    ensures var t := old(k.th.s).ready[0];
            && (stepped ==> S.CanMove(w, t) && w.cars[t].dir < 4 && w' == S.Step(w, t))
            && (!stepped ==> w' == w && k.th.s.cur == t && |k.th.s.ready| + 1 == |old(k.th.s).ready|
                             && k.th.s.sleepers == old(k.th.s).sleepers)
  {
    var t := k.th.s.ready[0];
    ghost var v := Of(k);
    assert t in v.ready && Known(v, |w.cars|, t);
    ThreadFacts(k, t);
    stepped := t in k.doing;
    if t in k.doing {
      assert CarOk(v, w, forked, t);
      w' := S.Step(w, t);
      S.StepGood(w, t);
      ghost var l := S.OpAt(w.cars[t].dir, w.cars[t].turn, w.cars[t].pc).lock;
      k.Switch();
      if k.th.s.cur == NONE {
        Sleeps(v, w, forked, t, l, Of(k));
      } else {
        GetsLock(v, w, forked, t, l, Of(k));
      }
    } else {
      w' := w;
      assert v.doing - {t} == v.doing;
      Picked(v, w, forked);
      k.Switch();
    }
  }

  /** What is left of the processor's work besides the cars' steps. */
  ghost function Live(v: View): nat {
    |v.ready| + |v.sleepers| + if v.cur == NONE then 0 else 1
  }

  /** The current thread is the creating one, or a car that is through: a fork or an exit. */
  method OtherStep(k: L.Synch, w: S.World, forked: nat) returns (forked': nat)
    requires k.Valid() && Matches(Of(k), w, forked) && k.th.s.cur != NONE
    requires k.th.s.cur < |w.cars| ==> S.Finished(w.cars[k.th.s.cur])
    modifies k, k.th
    ensures k.Valid() && Matches(Of(k), w, forked') && forked <= forked' <= |w.cars|
    ensures forked' == forked ==> Live(Of(k)) < Live(old(Of(k)))
  {
    ghost var v := Of(k);
    var t: nat := k.th.s.cur;
    ThreadFacts(k, t);
    assert Known(v, |w.cars|, t);
    if t == |w.cars| && forked < |w.cars| {
      OneMore(v, w, forked);
      k.Fork(forked, true);
      forked' := forked + 1;
      assert Of(k) == v.(ready := v.ready + [forked], threads := v.threads + {forked});
    } else {
      Gone(v, w, forked);
      k.Exit();
      forked' := forked;
    }
  }

  method Tick(k: L.Synch, ghost w: S.World, ghost forked: nat)
    requires k.Valid() && Matches(Of(k), w, forked) && k.th.s.cur != NONE
    modifies k, k.th
    ensures k.Valid() && Matches(Of(k), w, forked) && Live(Of(k)) == Live(old(Of(k))) && k.th.s.cur == NONE
  {
    Preempted(Of(k), w, forked);
    k.Yield();
  }

  method Start(routes: seq<(nat, nat)>) returns (k: L.Synch, w: S.World)
    requires forall i | 0 <= i < |routes| :: routes[i].0 < 4
    ensures fresh(k) && fresh(k.th) && k.Valid() && Matches(Of(k), w, 0) && S.OnRoute(w.cars, routes)
  {
    w := S.World(seq(|routes|, i requires 0 <= i < |routes| => S.Car(routes[i].0, routes[i].1, 0, false)), map[]);
    S.StartGood(w, routes);
    k := new L.Synch(|routes|, map[]);
    forall i: nat | i < |w.cars|
      ensures CarOk(Of(k), w, 0, i)
    {}
    forall t: nat
      ensures Known(Of(k), |w.cars|, t)
    {}
  }

  /**
   createcars and what follows, on the kernel's threads and locks: any routes,
   and a timer interrupt before any of the first |ticks| moves of the current
   thread for which ticks says so. The run ends, with every car through, every
   lock free and no thread left waiting.
   */
  method Traffic(routes: seq<(nat, nat)>, ticks: seq<bool>) returns (k: L.Synch, w: S.World)
    requires forall i | 0 <= i < |routes| :: routes[i].0 < 4
    ensures k.Valid() && k.owner == map[] && k.th.s.ready == [] && k.th.s.sleepers == []
    ensures S.OnRoute(w.cars, routes) && forall i: nat | i < |routes| :: S.Finished(w.cars[i])
  {
    k, w := Start(routes);
    var forked, tick := 0, 0;
    while k.th.s.cur != NONE || k.th.s.ready != []
      invariant fresh(k) && fresh(k.th) && k.Valid() && Matches(Of(k), w, forked) && S.OnRoute(w.cars, routes)
      invariant tick <= |ticks|
      decreases S.Remaining(w.cars), S.Awake(w.cars), |routes| - forked, Live(Of(k)), |ticks| - tick, k.th.s.cur == NONE
    {
      if k.th.s.cur == NONE {
        ghost var t, stepped := k.th.s.ready[0], false;
        var w0 := w;
        w, stepped := SwitchStep(k, w, forked);
        if stepped {
          S.StepProgress(w0, t);
          S.StepOnRoute(w0, t, routes);
        }
      } else if tick < |ticks| && ticks[tick] {
        Tick(k, w, forked);
        tick := tick + 1;
      } else {
        tick := if tick < |ticks| then tick + 1 else tick;
        if k.th.s.cur < |w.cars| && !S.Finished(w.cars[k.th.s.cur]) {
          ghost var i: nat := k.th.s.cur;
          var w0 := w;
          w := CarStep(k, w, forked);
          S.StepProgress(w0, i);
          S.StepOnRoute(w0, i, routes);
        } else {
          forked := OtherStep(k, w, forked);
        }
      }
    }
    NeverIdle(Of(k), w, forked);
  }
}
