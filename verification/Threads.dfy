/**
 Threads and context switches (thread/thread.c, thread/scheduler.c). Code
 between splhigh and splx is atomic, so one method is one step; mi_switch is
 two, because interrupt handlers run while the scheduler idles in the middle.
 */
module Threads {
  import opened Basics

  const NONE := -1

  /** Where a thread continues when it next gets the processor. */
  datatype Pc = Running | AtStart | InYield | InSleep | InExit

  /**
   curthread, the run queue, sleepers[], zombies[], numthreads; t_sleepaddr of
   the threads where it is not NULL; and where each thread ever made continues.
   */
  datatype State = State(cur: int, ready: seq<nat>, sleepers: seq<nat>, zombies: seq<nat>, num: int,
                         addr: map<nat, nat>, pc: map<nat, Pc>)

  /** The place of a thread: Gone once its structure is freed. */
  datatype Place = OnCpu | Ready | Asleep | Zombie | Gone

  /** Each thread's place, and the threads put on and taken from the run queue since boot. */
  datatype Spec = Spec(place: map<nat, Place>, queued: seq<nat>, picked: seq<nat>)

  // ---- Lists of threads ------------------------------------------------

  predicate SleepsOn(addr: map<nat, nat>, t: nat, a: nat) {
    t in addr && addr[t] == a
  }

  /** The threads that sleep on a among the first k of ts, in order; and the others. */
  function WaitingIn(ts: seq<nat>, k: nat, addr: map<nat, nat>, a: nat): seq<nat>
    requires k <= |ts|
  {
    if k == 0 then []
    else if SleepsOn(addr, ts[k - 1], a) then WaitingIn(ts, k - 1, addr, a) + [ts[k - 1]]
    else WaitingIn(ts, k - 1, addr, a)
  }

  function OthersIn(ts: seq<nat>, k: nat, addr: map<nat, nat>, a: nat): seq<nat>
    requires k <= |ts|
  {
    if k == 0 then []
    else if SleepsOn(addr, ts[k - 1], a) then OthersIn(ts, k - 1, addr, a)
    else OthersIn(ts, k - 1, addr, a) + [ts[k - 1]]
  }

  function Waiting(ts: seq<nat>, addr: map<nat, nat>, a: nat): seq<nat> {
    WaitingIn(ts, |ts|, addr, a)
  }

  function Others(ts: seq<nat>, addr: map<nat, nat>, a: nat): seq<nat> {
    OthersIn(ts, |ts|, addr, a)
  }

  lemma {:induction false} SplitIn(ts: seq<nat>, k: nat, addr: map<nat, nat>, a: nat)
    requires k <= |ts|
    ensures var (w, o) := (WaitingIn(ts, k, addr, a), OthersIn(ts, k, addr, a));
            && |w| + |o| == k
            && (forall t {:trigger t in w} :: t in w <==> t in ts[..k] && SleepsOn(addr, t, a))
            && (forall t {:trigger t in o} :: t in o <==> t in ts[..k] && !SleepsOn(addr, t, a))
            && (Distinct(ts) ==> Distinct(w) && Distinct(o))
  {
    if k > 0 {
      SplitIn(ts, k - 1, addr, a);
      assert ts[..k] == ts[..k - 1] + [ts[k - 1]];
      assert Distinct(ts) ==> ts[k - 1] !in ts[..k - 1];
      assert Distinct(ts) ==> ts[k - 1] !in WaitingIn(ts, k - 1, addr, a) && ts[k - 1] !in OthersIn(ts, k - 1, addr, a);
    }
  }

  lemma WaitingOthers(ts: seq<nat>, addr: map<nat, nat>, a: nat)
    ensures |Waiting(ts, addr, a)| + |Others(ts, addr, a)| == |ts|
    ensures forall t {:trigger t in Waiting(ts, addr, a)} ::
              t in Waiting(ts, addr, a) <==> t in ts && SleepsOn(addr, t, a)
    ensures forall t {:trigger t in Others(ts, addr, a)} ::
              t in Others(ts, addr, a) <==> t in ts && !SleepsOn(addr, t, a)
    ensures Distinct(ts) ==> Distinct(Waiting(ts, addr, a)) && Distinct(Others(ts, addr, a))
  {
    SplitIn(ts, |ts|, addr, a);
    assert ts[..|ts|] == ts;
  }

  // ---- Waiting lines, address by address -------------------------------

  lemma {:induction false} WaitingFrame(ts: seq<nat>, us: seq<nat>, k: nat, addr: map<nat, nat>, addr': map<nat, nat>,
                                        a: nat)
    requires k <= |ts| && k <= |us|
    requires forall i | 0 <= i < k :: us[i] == ts[i] && (SleepsOn(addr', ts[i], a) <==> SleepsOn(addr, ts[i], a))
    ensures WaitingIn(us, k, addr', a) == WaitingIn(ts, k, addr, a)
  {
    if k > 0 {
      WaitingFrame(ts, us, k - 1, addr, addr', a);
    }
  }

  lemma {:induction false} WaitingConcat(xs: seq<nat>, ys: seq<nat>, addr: map<nat, nat>, a: nat)
    ensures Waiting(xs + ys, addr, a) == Waiting(xs, addr, a) + Waiting(ys, addr, a)
  {
    if ys == [] {
      assert xs + ys == xs;
    } else {
      var zs := ys[..|ys| - 1];
      WaitingConcat(xs, zs, addr, a);
      WaitingFrame(xs + zs, xs + ys, |xs + zs|, addr, addr, a);
      WaitingFrame(zs, ys, |zs|, addr, addr, a);
    }
  }

  lemma WaitingOne(t: nat, addr: map<nat, nat>, a: nat)
    ensures Waiting([t], addr, a) == if SleepsOn(addr, t, a) then [t] else []
  {
    assert WaitingIn([t], 0, addr, a) == [];
  }

  /** Going to sleep joins the end of one waiting line and no other. */
  lemma SleepJoins(ts: seq<nat>, t: nat, addr: map<nat, nat>, a: nat, b: nat)
    requires t !in ts
    ensures Waiting(ts + [t], addr[t := a], b) == Waiting(ts, addr, b) + if a == b then [t] else []
  {
    var addr' := addr[t := a];
    WaitingFrame(ts, ts + [t], |ts|, addr, addr', b);
  }

  /** thread_wakeup empties one waiting line and leaves the others as they were. */
  lemma {:induction false} WakeupEmpties(ts: seq<nat>, k: nat, addr: map<nat, nat>, a: nat, b: nat)
    requires k <= |ts|
    ensures Waiting(OthersIn(ts, k, addr, a), addr, b) == if a == b then [] else WaitingIn(ts, k, addr, b)
  {
    if k > 0 {
      WakeupEmpties(ts, k - 1, addr, a, b);
      WaitingConcat(OthersIn(ts, k - 1, addr, a), [ts[k - 1]], addr, b);
      WaitingOne(ts[k - 1], addr, b);
    }
  }

  /** thread_onewakeup takes the first of one waiting line and leaves the others as they were. */
  lemma OneWakeupAdvances(ts: seq<nat>, i: nat, addr: map<nat, nat>, a: nat, b: nat)
    requires i < |ts| && SleepsOn(addr, ts[i], a) && forall k | 0 <= k < i :: !SleepsOn(addr, ts[k], a)
    ensures a != b ==> Waiting(RemoveAt(ts, i), addr, b) == Waiting(ts, addr, b)
    ensures a == b ==> Waiting(ts, addr, b) == [ts[i]] + Waiting(RemoveAt(ts, i), addr, b)
  {
    var (xs, ys) := (ts[..i], ts[i + 1..]);
    assert ts == (xs + [ts[i]]) + ys;
    WaitingConcat(xs + [ts[i]], ys, addr, b);
    WaitingConcat(xs, [ts[i]], addr, b);
    WaitingConcat(xs, ys, addr, b);
    WaitingOne(ts[i], addr, b);
    if a == b {
      NoneWaiting(xs, |xs|, addr, a);
    }
  }

  lemma RemoveAtMembers(ts: seq<nat>, i: nat)
    requires i < |ts| && Distinct(ts)
    ensures Distinct(RemoveAt(ts, i))
    ensures forall t {:trigger t in RemoveAt(ts, i)} :: t in RemoveAt(ts, i) <==> t in ts && t != ts[i]
  {
    var us := RemoveAt(ts, i);
    forall t | t in ts && t != ts[i]
      ensures t in us
    {
      var k :| 0 <= k < |ts| && ts[k] == t;
      assert us[if k < i then k else k - 1] == t;
    }
  }

  // ---- The invariant ---------------------------------------------------

  predicate PcOk(place: Place, pc: Pc) {
    match place
    case OnCpu => pc == Running
    case Ready => pc == AtStart || pc == InYield || pc == InSleep
    case Asleep => pc == InSleep
    case Zombie => pc == InExit
    case Gone => pc == InExit
  }

  /** Thread t is in exactly one place, the one recorded, and can continue from there. */
  ghost predicate ThreadOk(s: State, place: map<nat, Place>, t: nat) {
    && (t in s.pc <==> t in place)
    && (t == s.cur <==> t in place && place[t] == OnCpu)
    && (t in s.ready <==> t in place && place[t] == Ready)
    && (t in s.sleepers <==> t in place && place[t] == Asleep)
    && (t in s.zombies <==> t in place && place[t] == Zombie)
    && (t in place ==> t in s.pc && PcOk(place[t], s.pc[t]) && (place[t] == Asleep ==> t in s.addr))
  }

  function Current(s: State): seq<nat> {
    if s.cur < 0 then [] else [s.cur]
  }

  ghost predicate Good(s: State, g: Spec) {
    && s.cur >= NONE
    && (forall t: nat {:trigger ThreadOk(s, g.place, t)} :: ThreadOk(s, g.place, t))
    && Distinct(s.ready) && Distinct(s.sleepers) && Distinct(s.zombies)
    && s.num == |Current(s)| + |s.ready| + |s.sleepers|
    && g.queued == g.picked + s.ready
  }

  ghost function Moved(g: Spec, ts: seq<nat>, to: Place): map<nat, Place> {
    map t | t in g.place :: if t in ts then to else g.place[t]
  }

  /** One round of the loop below: the thread in place i is the next one, and stays or goes. */
  lemma WalkOne(sleepers: seq<nat>, all: seq<nat>, k: nat, addr: map<nat, nat>, a: nat)
    requires k < |all| && sleepers == OthersIn(all, k, addr, a) + all[k..]
    ensures var (i, done') := (|OthersIn(all, k, addr, a)|, OthersIn(all, k + 1, addr, a));
            && i < |sleepers| && sleepers[i] == all[k]
            && (SleepsOn(addr, all[k], a) ==> RemoveAt(sleepers, i) == done' + all[k + 1..] && |done'| == i)
            && (!SleepsOn(addr, all[k], a) ==> sleepers == done' + all[k + 1..] && |done'| == i + 1)
  {
    var (done, rest) := (OthersIn(all, k, addr, a), all[k + 1..]);
    assert all[k..] == [all[k]] + rest;
    if SleepsOn(addr, all[k], a) {
      assert RemoveAt(done + ([all[k]] + rest), |done|) == done + rest;
    } else {
      assert done + ([all[k]] + rest) == (done + [all[k]]) + rest;
    }
  }

  lemma WaitingNext(queue: seq<nat>, all: seq<nat>, k: nat, addr: map<nat, nat>, a: nat)
    requires k < |all|
    ensures queue + WaitingIn(all, k + 1, addr, a) ==
            if SleepsOn(addr, all[k], a) then (queue + WaitingIn(all, k, addr, a)) + [all[k]]
              else queue + WaitingIn(all, k, addr, a)
  {}

  /** The loop of thread_wakeup, which removes from the list it walks over. */
  method MoveWaiting(all: seq<nat>, queue: seq<nat>, addr: map<nat, nat>, a: nat)
    returns (sleepers: seq<nat>, ready: seq<nat>)
    ensures sleepers == Others(all, addr, a) && ready == queue + Waiting(all, addr, a)
  {
    sleepers, ready := all, queue;
    ghost var k := 0;
    var i := 0;
    while i < |sleepers|
      invariant 0 <= k <= |all| && i == |OthersIn(all, k, addr, a)|
      invariant sleepers == OthersIn(all, k, addr, a) + all[k..] && ready == queue + WaitingIn(all, k, addr, a)
      decreases |all| - k
    {
      WalkOne(sleepers, all, k, addr, a);
      WaitingNext(queue, all, k, addr, a);
      var t := sleepers[i];
      if SleepsOn(addr, t, a) {
        sleepers := RemoveAt(sleepers, i);
        i := i - 1;
        ready := ready + [t];
      }
      i, k := i + 1, k + 1;
    }
  }

  class Threads {
    var s: State
    ghost var g: Spec

    ghost predicate Valid()
      reads this
    {
      Good(s, g)
    }

    /** thread_bootstrap. */
    constructor (me: nat)
      ensures Valid() && s == State(me, [], [], [], 1, map[], map[me := Running])
    {
      s := State(me, [], [], [], 1, map[], map[me := Running]);
      g := Spec(map[me := OnCpu], [], []);
    }

    /** The atomic part of thread_fork, for a thread structure just made. */
    method Fork(newguy: nat, memory: bool) returns (r: MemStatus)
      requires Valid() && newguy !in s.pc
      modifies this
      ensures Valid() && (r.Success? <==> memory)
      ensures r.Success? ==>
                s == old(s).(ready := old(s).ready + [newguy], num := old(s).num + 1,
                             pc := old(s).pc[newguy := AtStart])
      ensures r.Success? ==> g == old(g).(place := old(g).place[newguy := Ready], queued := old(g).queued + [newguy])
      ensures r.OutOfMemory? ==> s == old(s) && g == old(g)
    {
      if !memory {
        return OutOfMemory;
      }
      Forked(s, g, newguy);
      s := s.(ready := s.ready + [newguy], num := s.num + 1, pc := s.pc[newguy := AtStart]);
      g := g.(place := g.place[newguy := Ready], queued := g.queued + [newguy]);
      return Success;
    }

    /**
     The first half of mi_switch(S_READY), called by thread_yield: the current
     thread goes to the end of the run queue.
     */
    method Yield()
      requires Valid()
      modifies this
      ensures Valid()
      ensures old(s).cur == NONE ==> s == old(s) && g == old(g)
      ensures old(s).cur != NONE ==>
                s == old(s).(cur := NONE, ready := old(s).ready + [old(s).cur], pc := old(s).pc[old(s).cur := InYield])
      ensures old(s).cur != NONE ==>
                g == old(g).(place := old(g).place[old(s).cur := Ready], queued := old(g).queued + [old(s).cur])
    {
      if s.cur == NONE {
        return;
      }
      var cur: nat := s.cur;
      Yielded(s, g, cur);
      s := s.(cur := NONE, ready := s.ready + [cur], pc := s.pc[cur := InYield]);
      g := g.(place := g.place[cur := Ready], queued := g.queued + [cur]);
    }

    /** The first half of thread_sleep. */
    method Sleep(a: nat)
      requires Valid() && s.cur != NONE
      modifies this
      ensures Valid()
      ensures s == old(s).(cur := NONE, sleepers := old(s).sleepers + [old(s).cur],
                           addr := old(s).addr[old(s).cur := a],
                           pc := old(s).pc[old(s).cur := InSleep])
      ensures g == old(g).(place := old(g).place[old(s).cur := Asleep])
    {
      var cur: nat := s.cur;
      Slept(s, g, cur, a);
      s := s.(cur := NONE, sleepers := s.sleepers + [cur], addr := s.addr[cur := a], pc := s.pc[cur := InSleep]);
      g := g.(place := g.place[cur := Asleep]);
    }

    /** thread_exit: one thread fewer, and one more zombie. */
    method Exit()
      requires Valid() && s.cur != NONE
      modifies this
      ensures Valid()
      ensures s == old(s).(cur := NONE, zombies := old(s).zombies + [old(s).cur], num := old(s).num - 1,
                           pc := old(s).pc[old(s).cur := InExit])
      ensures g == old(g).(place := old(g).place[old(s).cur := Zombie])
    {
      var cur: nat := s.cur;
      assert s.num > 0;
      Exited(s, g, cur);
      s := s.(cur := NONE, zombies := s.zombies + [cur], num := s.num - 1, pc := s.pc[cur := InExit]);
      g := g.(place := g.place[cur := Zombie]);
    }

    /** thread_wakeup: all sleepers on a become runnable, in the order they went to sleep; the others keep theirs. */
    method Wakeup(a: nat)
      requires Valid()
      modifies this
      ensures Valid()
      ensures s == old(s).(sleepers := Others(old(s).sleepers, old(s).addr, a),
                           ready := old(s).ready + Waiting(old(s).sleepers, old(s).addr, a))
      ensures g == old(g).(place := Moved(old(g), Waiting(old(s).sleepers, old(s).addr, a), Ready),
                           queued := old(g).queued + Waiting(old(s).sleepers, old(s).addr, a))
    {
      WokenUp(s, g, a);
      var sleepers, ready := MoveWaiting(s.sleepers, s.ready, s.addr, a);
      ghost var woken := Waiting(s.sleepers, s.addr, a);
      s := s.(sleepers := sleepers, ready := ready);
      g := g.(place := Moved(g, woken, Ready), queued := g.queued + woken);
    }

    /** thread_onewakeup: the thread asleep longest on a becomes runnable, if there is one; nothing else changes. */
    method OneWakeup(a: nat)
      requires Valid()
      modifies this
      ensures Valid()
      ensures Waiting(old(s).sleepers, old(s).addr, a) == [] ==> s == old(s) && g == old(g)
      ensures Waiting(old(s).sleepers, old(s).addr, a) != [] ==>
                var t := Waiting(old(s).sleepers, old(s).addr, a)[0];
                exists i: nat ::
                  && i < |old(s).sleepers| && old(s).sleepers[i] == t
                  && (forall k | 0 <= k < i :: !SleepsOn(old(s).addr, old(s).sleepers[k], a))
                  && s == old(s).(sleepers := RemoveAt(old(s).sleepers, i), ready := old(s).ready + [t])
                  && g == old(g).(place := old(g).place[t := Ready], queued := old(g).queued + [t])
    {
      var i := 0;
      while i < |s.sleepers|
        invariant i <= |s.sleepers| && s == old(s) && g == old(g)
        invariant forall k | 0 <= k < i :: !SleepsOn(s.addr, s.sleepers[k], a)
      {
        var t := s.sleepers[i];
        if SleepsOn(s.addr, t, a) {
          FirstWaiting(s.sleepers, |s.sleepers|, s.addr, a, i);
          WokenOne(s, g, i);
          s := s.(sleepers := RemoveAt(s.sleepers, i), ready := s.ready + [t]);
          g := g.(place := g.place[t := Ready], queued := g.queued + [t]);
          return;
        }
        i := i + 1;
      }
      NoneWaiting(s.sleepers, |s.sleepers|, s.addr, a);
    }

    /** exorcise: every zombie is destroyed, each once and none of them the current thread. */
    method Exorcise()
      requires Valid() && s.cur != NONE
      modifies this
      ensures Valid() && s == old(s).(zombies := []) && g == old(g).(place := Moved(old(g), old(s).zombies, Gone))
    {
      ghost var place := g.place;
      for i := 0 to |s.zombies|
        invariant s == old(s) && place.Keys == old(g).place.Keys
        invariant forall t | t in place :: place[t] == if t in s.zombies[..i] then Gone else old(g).place[t]
      {
        var z := s.zombies[i];
        assert ThreadOk(s, g.place, z) && ThreadOk(s, g.place, s.cur);
        assert z != s.cur;
        assert z in place && place[z] == Zombie;
        place := place[z := Gone];
        assert s.zombies[..i + 1] == s.zombies[..i] + [z];
      }
      assert s.zombies[..|s.zombies|] == s.zombies;
      assert place == Moved(g, s.zombies, Gone);
      Exorcised(s, g);
      s := s.(zombies := []);
      g := g.(place := place);
    }

    /**
     The second half of mi_switch, once the run queue is not empty: the thread
     at its head gets the processor and continues where it left off. A thread
     that had exited would panic here; it never gets here.
     */
    method Dispatch()
      requires Valid() && s.cur == NONE && s.ready != []
      modifies this
      ensures Valid() && s.cur == old(s).ready[0] && s.ready == old(s).ready[1..]
      ensures s.sleepers == old(s).sleepers && s.num == old(s).num
      ensures s.cur in s.pc && s.cur in old(s).pc && s.pc == old(s).pc[s.cur := Running] && old(s).pc[s.cur] != InExit
      ensures s.zombies == if old(s).pc[s.cur] == AtStart then old(s).zombies else []
      ensures s.addr == if old(s).pc[s.cur] == InSleep then old(s).addr - {s.cur} else old(s).addr
      ensures g.queued == old(g).queued && g.picked == old(g).picked + [s.cur]
    {
      var next := s.ready[0];
      assert ThreadOk(s, g.place, next) && next in s.ready;
      var resume := s.pc[next];
      Picked(s, g);
      s := s.(cur := next, ready := s.ready[1..], pc := s.pc[next := Running]);
      g := g.(place := g.place[next := OnCpu], picked := g.picked + [next]);
      if resume == AtStart {
        return;
      }
      Exorcise();
      assert resume != InExit;
      if resume == InSleep {
        Awake(s, g, next);
        s := s.(addr := s.addr - {next});
      }
    }
  }

  lemma Forked(s: State, g: Spec, newguy: nat)
    requires Good(s, g) && newguy !in s.pc
    ensures Good(s.(ready := s.ready + [newguy], num := s.num + 1, pc := s.pc[newguy := AtStart]),
                 g.(place := g.place[newguy := Ready], queued := g.queued + [newguy]))
  {
    assert ThreadOk(s, g.place, newguy);
    var (s', place') := (s.(ready := s.ready + [newguy], num := s.num + 1, pc := s.pc[newguy := AtStart]),
                         g.place[newguy := Ready]);
    forall t: nat
      ensures ThreadOk(s', place', t)
    {
      assert ThreadOk(s, g.place, t);
    }
  }

  lemma Yielded(s: State, g: Spec, cur: nat)
    requires Good(s, g) && s.cur == cur
    ensures Good(s.(cur := NONE, ready := s.ready + [cur], pc := s.pc[cur := InYield]),
                 g.(place := g.place[cur := Ready], queued := g.queued + [cur]))
  {
    assert ThreadOk(s, g.place, cur);
    var (s', place') := (s.(cur := NONE, ready := s.ready + [cur], pc := s.pc[cur := InYield]),
                         g.place[cur := Ready]);
    forall t: nat
      ensures ThreadOk(s', place', t)
    {
      assert ThreadOk(s, g.place, t);
    }
  }

  lemma Slept(s: State, g: Spec, cur: nat, a: nat)
    requires Good(s, g) && s.cur == cur
    ensures Good(s.(cur := NONE, sleepers := s.sleepers + [cur], addr := s.addr[cur := a], pc := s.pc[cur := InSleep]),
                 g.(place := g.place[cur := Asleep]))
  {
    assert ThreadOk(s, g.place, cur);
    var (s', place') :=
      (s.(cur := NONE, sleepers := s.sleepers + [cur], addr := s.addr[cur := a], pc := s.pc[cur := InSleep]),
                         g.place[cur := Asleep]);
    forall t: nat
      ensures ThreadOk(s', place', t)
    {
      assert ThreadOk(s, g.place, t);
    }
  }

  lemma Exited(s: State, g: Spec, cur: nat)
    requires Good(s, g) && s.cur == cur
    ensures Good(s.(cur := NONE, zombies := s.zombies + [cur], num := s.num - 1, pc := s.pc[cur := InExit]),
                 g.(place := g.place[cur := Zombie]))
  {
    assert ThreadOk(s, g.place, cur);
    var (s', place') := (s.(cur := NONE, zombies := s.zombies + [cur], num := s.num - 1, pc := s.pc[cur := InExit]),
                         g.place[cur := Zombie]);
    forall t: nat
      ensures ThreadOk(s', place', t)
    {
      assert ThreadOk(s, g.place, t);
    }
  }

  lemma Exorcised(s: State, g: Spec)
    requires Good(s, g)
    ensures Good(s.(zombies := []),
                 g.(place := Moved(g, s.zombies, Gone)))
  {
    var (s', place') := (s.(zombies := []),
                         Moved(g, s.zombies, Gone));
    forall t: nat
      ensures ThreadOk(s', place', t)
    {
      assert ThreadOk(s, g.place, t);
    }
  }

  lemma Picked(s: State, g: Spec)
    requires Good(s, g) && s.cur == NONE && s.ready != []
    ensures var next := s.ready[0];
            Good(s.(cur := next, ready := s.ready[1..], pc := s.pc[next := Running]),
                 g.(place := g.place[next := OnCpu], picked := g.picked + [next]))
  {
    var next := s.ready[0];
    assert s.ready == [next] + s.ready[1..];
    var (s', place') := (s.(cur := next, ready := s.ready[1..], pc := s.pc[next := Running]), g.place[next := OnCpu]);
    forall t: nat
      ensures ThreadOk(s', place', t)
    {
      assert ThreadOk(s, g.place, t);
    }
  }

  lemma Awake(s: State, g: Spec, t: nat)
    requires Good(s, g) && t == s.cur
    ensures Good(s.(addr := s.addr - {t}), g)
  {
    var s' := s.(addr := s.addr - {t});
    assert ThreadOk(s, g.place, t);
    forall u: nat
      ensures ThreadOk(s', g.place, u)
    {
      assert ThreadOk(s, g.place, u);
    }
  }

  lemma WokenUp(s: State, g: Spec, a: nat)
    requires Good(s, g)
    ensures Good(s.(sleepers := Others(s.sleepers, s.addr, a), ready := s.ready + Waiting(s.sleepers, s.addr, a)),
                 g.(place := Moved(g, Waiting(s.sleepers, s.addr, a), Ready),
                    queued := g.queued + Waiting(s.sleepers, s.addr, a)))
  {
    var (woken, rest) := (Waiting(s.sleepers, s.addr, a), Others(s.sleepers, s.addr, a));
    WaitingOthers(s.sleepers, s.addr, a);
    var s' := s.(sleepers := rest, ready := s.ready + woken);
    var place' := Moved(g, woken, Ready);
    forall t: nat
      ensures ThreadOk(s', place', t)
    {
      assert ThreadOk(s, g.place, t);
    }
    forall i, j | 0 <= i < |s.ready| && 0 <= j < |woken|
      ensures s.ready[i] != woken[j]
    {
      assert woken[j] in woken && ThreadOk(s, g.place, s.ready[i]);
    }
  }

  lemma {:induction false} NoneWaiting(ts: seq<nat>, n: nat, addr: map<nat, nat>, a: nat)
    requires n <= |ts| && forall k | 0 <= k < n :: !SleepsOn(addr, ts[k], a)
    ensures WaitingIn(ts, n, addr, a) == []
  {
    if n > 0 {
      NoneWaiting(ts, n - 1, addr, a);
    }
  }

  lemma {:induction false} FirstWaiting(ts: seq<nat>, n: nat, addr: map<nat, nat>, a: nat, i: nat)
    requires i < n <= |ts| && SleepsOn(addr, ts[i], a) && forall k | 0 <= k < i :: !SleepsOn(addr, ts[k], a)
    ensures WaitingIn(ts, n, addr, a) != [] && WaitingIn(ts, n, addr, a)[0] == ts[i]
  {
    if i < n - 1 {
      FirstWaiting(ts, n - 1, addr, a, i);
    } else {
      NoneWaiting(ts, i, addr, a);
    }
  }

  lemma WokenOne(s: State, g: Spec, i: nat)
    requires Good(s, g) && i < |s.sleepers|
    ensures var t := s.sleepers[i];
            Good(s.(sleepers := RemoveAt(s.sleepers, i), ready := s.ready + [t]),
                 g.(place := g.place[t := Ready], queued := g.queued + [t]))
  {
    var t := s.sleepers[i];
    assert ThreadOk(s, g.place, t);
    RemoveAtMembers(s.sleepers, i);
    var (s', place') := (s.(sleepers := RemoveAt(s.sleepers, i), ready := s.ready + [t]), g.place[t := Ready]);
    forall u: nat
      ensures ThreadOk(s', place', u)
    {
      assert ThreadOk(s, g.place, u);
    }
  }

  // ---- Runs ------------------------------------------------------------

  /**
   What can happen next: a call by the current thread, a wakeup by it or by an
   interrupt handler, or the scheduler's choice.
   */
  datatype Op = OpFork(t: nat, memory: bool) | OpYield | OpSleep(a: nat) | OpExit | OpWakeup(a: nat)
    | OpOneWakeup(a: nat) | OpDispatch

  predicate CanHappen(s: State, op: Op) {
    match op
    case OpFork(t, _) => s.cur != NONE && t !in s.pc
    case OpYield => true
    case OpSleep(_) => s.cur != NONE
    case OpExit => s.cur != NONE
    case OpWakeup(_) => true
    case OpOneWakeup(_) => true
    case OpDispatch => s.cur == NONE && s.ready != []
  }

  method Step(th: Threads, op: Op)
    requires th.Valid() && CanHappen(th.s, op)
    modifies th
    ensures th.Valid() && old(th.g).queued <= th.g.queued && old(th.g).picked <= th.g.picked
  {
    match op
    case OpFork(t, memory) => var r := th.Fork(t, memory);
    case OpYield => th.Yield();
    case OpSleep(a) => th.Sleep(a);
    case OpExit => th.Exit();
    case OpWakeup(a) => th.Wakeup(a);
    case OpOneWakeup(a) => th.OneWakeup(a);
    case OpDispatch => th.Dispatch();
  }

  /**
   Any run from any reachable state: every thread stays in exactly one place,
   and a thread with k others ahead of it on the run queue is the (k+1)-th one
   picked, whatever the others do.
   */
  method Execute(th: Threads, ops: seq<Op>)
    requires th.Valid()
    modifies th
    ensures th.Valid() && old(th.g).picked <= th.g.picked
    ensures forall k: nat | k < |old(th.s).ready| && |th.g.picked| > |old(th.g).picked| + k ::
              th.g.picked[|old(th.g).picked| + k] == old(th.s).ready[k]
  {
    for n := 0 to |ops|
      invariant th.Valid() && old(th.g).queued <= th.g.queued && old(th.g).picked <= th.g.picked
    {
      if CanHappen(th.s, ops[n]) {
        Step(th, ops[n]);
      }
    }
    InTurn(old(th.g).picked, old(th.s).ready, th.g.picked, th.s.ready);
  }

  lemma InTurn(picked: seq<nat>, ready: seq<nat>, picked': seq<nat>, ready': seq<nat>)
    requires picked + ready <= picked' + ready'
    ensures forall k: nat | k < |ready| && |picked'| > |picked| + k :: picked'[|picked| + k] == ready[k]
  {
    forall k: nat | k < |ready| && |picked'| > |picked| + k
      ensures picked'[|picked| + k] == ready[k]
    {
      assert (picked + ready)[|picked| + k] == (picked' + ready')[|picked| + k];
    }
  }
}
