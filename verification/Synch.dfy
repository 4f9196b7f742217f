/**
 Semaphores, locks and condition variables (thread/synch.c) on top of the
 thread system. A method runs with interrupts off, so it is one step; where
 the source sleeps, the step ends, and the thread goes on in Switch when the
 scheduler picks it again.
 */
module Synch {
  import opened Basics
  import opened Threads

  const SPL_HIGH := 15
  const MAXINT := 0x7fff_ffff

  /** What a thread inside a blocking call will do when it runs again; s, l and c number the primitives. */
  datatype Doing = InP(s: nat) | InAcquire(l: nat) | InWait(c: nat, l: nat)

  /** The address slept on: distinct for distinct primitives. */
  function AddrOf(d: Doing): nat {
    match d
    case InP(s) => 3 * s
    case InAcquire(l) => 3 * l + 1
    case InWait(c, _) => 3 * c + 2
  }

  /** A value stored in an int. */
  function Int32(x: int): int {
    if x % 0x1_0000_0000 <= MAXINT then x % 0x1_0000_0000 else x % 0x1_0000_0000 - 0x1_0000_0000
  }

  function Count(count: map<nat, nat>, s: nat): nat {
    if s in count then count[s] else 0
  }

  /** The reason to sleep still holds. */
  predicate Blocked(d: Doing, count: map<nat, nat>, owner: map<nat, nat>) {
    match d
    case InP(s) => Count(count, s) == 0
    case InAcquire(l) => l in owner
    case InWait(_, _) => true
  }

  predicate SleeperOk(t: nat, addr: map<nat, nat>, doing: map<nat, Doing>, count: map<nat, nat>, owner: map<nat, nat>) {
    t in doing && t in addr && addr[t] == AddrOf(doing[t]) && Blocked(doing[t], count, owner)
  }

  /** Nobody is stranded: whoever is asleep has, right now, a reason to be. */
  ghost predicate SleepersOk(sleepers: seq<nat>, addr: map<nat, nat>, doing: map<nat, Doing>, count: map<nat, nat>,
                             owner: map<nat, nat>)
  {
    forall t {:trigger SleeperOk(t, addr, doing, count, owner)} | t in sleepers ::
      SleeperOk(t, addr, doing, count, owner)
  }

  /**
   A thread is inside a blocking call exactly when it continues from a sleep;
   whoever was switched out has a level to restore.
   */
  predicate DoingOk(pc: map<nat, Pc>, doing: map<nat, Doing>, frame: map<nat, nat>, t: nat) {
    (t in doing <==> t in pc && pc[t] == InSleep) && (t in pc && (pc[t] == InSleep || pc[t] == InYield) ==> t in frame)
  }

  /** Each count is its initial value plus the Vs minus the Ps done so far. */
  ghost predicate CountsOk(count: map<nat, nat>, init: map<nat, nat>, ups: map<nat, nat>, downs: map<nat, nat>) {
    forall s: nat {:trigger Count(count, s)} :: Count(count, s) == Count(init, s) + Count(ups, s) - Count(downs, s)
  }

  /** Counts are ints. */
  ghost predicate CountsFit(count: map<nat, nat>) {
    forall s: nat {:trigger Count(count, s)} :: Count(count, s) <= MAXINT
  }

  /** What the thread finds on looking again: the count is zero, or the lock is taken. */
  predicate MustSleep(d: Doing, count: map<nat, nat>, owner: map<nat, nat>) {
    match d
    case InP(s) => Count(count, s) == 0
    case InAcquire(l) => l in owner
    case InWait(_, l) => l in owner
  }

  /** What a thread that sleeps again is doing: after a condition variable, only the lock is left to get. */
  function Again(d: Doing): Doing {
    if d.InWait? then InAcquire(d.l) else d
  }

  /** The blocking call has got what it was for. */
  ghost predicate Returned(d: Doing, count: map<nat, nat>, count': map<nat, nat>, owner: map<nat, nat>,
                           owner': map<nat, nat>, t: nat)
  {
    match d
    case InP(s) => Count(count, s) > 0 && count' == count[s := Count(count, s) - 1] && owner' == owner
    case InAcquire(l) => l !in owner && owner' == owner[l := t] && count' == count
    case InWait(_, l) => l !in owner && owner' == owner[l := t] && count' == count
  }

  /** The threads waiting on condition variable c, longest first. */
  function Line(s: State, c: nat): seq<nat> {
    Waiting(s.sleepers, s.addr, AddrOf(InWait(c, 0)))
  }

  /** Nobody has left the line of any condition variable. */
  ghost predicate LinesKept(s: State, s': State) {
    forall c: nat {:trigger Line(s', c)} :: Line(s, c) <= Line(s', c)
  }

  lemma SameLines(s: State, s': State, t: int)
    requires s'.sleepers == s.sleepers && t !in s.sleepers && (s'.addr == s.addr || s'.addr == s.addr - {t})
    ensures LinesKept(s, s')
  {
    forall c: nat
      ensures Line(s, c) <= Line(s', c)
    {
      WaitingFrame(s.sleepers, s'.sleepers, |s.sleepers|, s.addr, s'.addr, AddrOf(InWait(c, 0)));
    }
  }

  class Synch {
    const th: Threads
    var count: map<nat, nat>
    /** Locks that are held, with their owners. */
    var owner: map<nat, nat>
    var doing: map<nat, Doing>
    /** The interrupt level each thread in a call will restore. */
    var frame: map<nat, nat>
    var curspl: nat
    ghost const init: map<nat, nat>
    ghost var ups: map<nat, nat>
    ghost var downs: map<nat, nat>
    /** (t, l): t has acquired l and not released it since. */
    ghost var holding: set<(nat, nat)>

    ghost predicate Valid()
      reads this, th
    {
      && th.Valid()
      && SleepersOk(th.s.sleepers, th.s.addr, doing, count, owner)
      && (forall t: nat {:trigger DoingOk(th.s.pc, doing, frame, t)} :: DoingOk(th.s.pc, doing, frame, t))
      && CountsOk(count, init, ups, downs) && CountsFit(count)
      && (forall t: nat, l: nat {:trigger (t, l) in holding} :: (t, l) in holding <==> l in owner && owner[l] == t)
    }

    /** At most one thread is between acquire and release of a lock. */
    lemma MutualExclusion(t: nat, u: nat, l: nat)
      requires Valid() && (t, l) in holding && (u, l) in holding
      ensures t == u
    {}

    /** A free lock or a positive count means that nobody is asleep on it. */
    lemma NoStrandedSleeper(t: nat)
      requires Valid() && t in th.s.sleepers
      ensures t in th.s.addr
      ensures forall s: nat | th.s.addr[t] == AddrOf(InP(s)) :: Count(count, s) == 0
      ensures forall l: nat | th.s.addr[t] == AddrOf(InAcquire(l)) :: l in owner
    {
      assert SleeperOk(t, th.s.addr, doing, count, owner);
    }

    constructor (me: nat, init: map<nat, nat>)
      requires CountsFit(init)
      ensures Valid() && fresh(th) && count == init && owner == map[] && doing == map[] && curspl == 0 && holding == {}
      ensures th.s == State(me, [], [], [], 1, map[], map[me := Running])
    {
      this.init := init;
      th := new Threads(me);
      count, owner, doing, frame, curspl := init, map[], map[], map[], 0;
      ups, downs, holding := map[], map[], {};
    }

    method Splhigh() returns (old_: nat)
      modifies this`curspl
      ensures old_ == old(curspl) && curspl == SPL_HIGH
    {
      old_, curspl := curspl, SPL_HIGH;
    }

    method Splx(level: nat)
      modifies this`curspl
      ensures curspl == level
    {
      curspl := level;
    }

    /** thread_sleep, with interrupts off: what the caller has said it is doing is what it waits for. */
    method Block(d: Doing)
      requires Valid() && th.s.cur != NONE && th.s.cur in frame && curspl > 0 && Blocked(d, count, owner)
      modifies this`doing, th
      ensures LinesKept(old(th.s), th.s)
      ensures Valid() && doing == old(doing)[old(th.s).cur := d] && th.s.cur == NONE
      ensures th.s.ready == old(th.s).ready && th.s.pc.Keys == old(th.s).pc.Keys
      ensures th.s.sleepers == old(th.s).sleepers + [old(th.s).cur]
      ensures forall b: nat :: Waiting(th.s.sleepers, th.s.addr, b) ==
                               Waiting(old(th.s).sleepers, old(th.s).addr, b) + if AddrOf(d) == b then [old(th.s).cur]
                                 else []
    {
      ghost var t: nat := th.s.cur;
      assert ThreadOk(th.s, th.g.place, t) && DoingOk(th.s.pc, doing, frame, t);
      assert th.s.pc.Keys + {t} == th.s.pc.Keys;
      doing := doing[th.s.cur := d];
      th.Sleep(AddrOf(d));
      forall u | u in th.s.sleepers
        ensures SleeperOk(u, th.s.addr, doing, count, owner)
      {
        assert u != t ==> SleeperOk(u, old(th.s).addr, old(doing), count, owner);
      }
      forall u: nat
        ensures DoingOk(th.s.pc, doing, frame, u)
      {
        assert DoingOk(old(th.s).pc, old(doing), frame, u);
      }
      forall b: nat
        ensures Waiting(th.s.sleepers, th.s.addr, b) ==
                Waiting(old(th.s).sleepers, old(th.s).addr, b) + if AddrOf(d) == b then [t] else []
      {
        SleepJoins(old(th.s).sleepers, t, old(th.s).addr, AddrOf(d), b);
      }
    }

    /** The loop of P, from its test on. */
    method TryP(s: nat)
      requires Valid() && th.s.cur != NONE && th.s.cur in frame && curspl > 0
      modifies this`doing, this`count, this`curspl, this`downs, th
      ensures LinesKept(old(th.s), th.s)
      ensures Valid() && th.s.pc.Keys == old(th.s).pc.Keys
      ensures old(Count(count, s)) == 0 ==>
                && count == old(count) && downs == old(downs) && th.s.cur == NONE
                && doing == old(doing)[old(th.s).cur := InP(s)]
                && th.s.ready == old(th.s).ready && th.s.sleepers == old(th.s).sleepers + [old(th.s).cur]
      ensures old(Count(count, s)) > 0 ==>
                && count == old(count)[s := old(Count(count, s)) - 1]
                && downs == old(downs)[s := old(Count(downs, s)) + 1]
                && th.s == old(th.s) && doing == old(doing) && curspl == frame[th.s.cur]
    {
      if Count(count, s) == 0 {
        Block(InP(s));
        return;
      }
      assert Count(count, s) > 0;
      ghost var was, wasDowns := count, downs;
      count := count[s := Count(count, s) - 1];
      downs := downs[s := Count(downs, s) + 1];
      forall u: nat
        ensures Count(count, u) == Count(init, u) + Count(ups, u) - Count(downs, u) && Count(count, u) <= MAXINT
      {
        assert Count(was, u) == Count(init, u) + Count(ups, u) - Count(wasDowns, u) && Count(was, u) <= MAXINT;
      }
      forall t | t in th.s.sleepers
        ensures SleeperOk(t, th.s.addr, doing, count, owner)
      {
        assert SleeperOk(t, th.s.addr, doing, was, owner);
      }
      Splx(frame[th.s.cur]);
    }

    method P(s: nat)
      requires Valid() && th.s.cur != NONE
      modifies this`doing, this`count, this`curspl, this`downs, this`frame, th
      ensures LinesKept(old(th.s), th.s)
      ensures Valid() && th.s.pc.Keys == old(th.s).pc.Keys
      ensures old(Count(count, s)) == 0 ==>
                && count == old(count) && downs == old(downs) && th.s.cur == NONE
                && doing == old(doing)[old(th.s).cur := InP(s)]
                && th.s.ready == old(th.s).ready && th.s.sleepers == old(th.s).sleepers + [old(th.s).cur]
      ensures old(Count(count, s)) > 0 ==>
                && count == old(count)[s := old(Count(count, s)) - 1]
                && downs == old(downs)[s := old(Count(downs, s)) + 1]
                && th.s == old(th.s) && doing == old(doing) && curspl == old(curspl)
    {
      var spl := Splhigh();
      SetFrame(spl);
      TryP(s);
    }

    /** A blocking call keeps the interrupt level to go back to in its frame. */
    method SetFrame(spl: nat)
      requires Valid() && th.s.cur != NONE
      modifies this`frame
      ensures Valid() && frame == old(frame)[th.s.cur := spl]
    {
      frame := frame[th.s.cur := spl];
      forall u: nat
        ensures DoingOk(th.s.pc, doing, frame, u)
      {
        assert DoingOk(th.s.pc, doing, old(frame), u);
      }
    }

    /** thread_wakeup, given that it wakes everyone whose reason to sleep has gone. */
    method Wake(a: nat)
      requires th.Valid()
      requires (forall t: nat {:trigger DoingOk(th.s.pc, doing, frame, t)} :: DoingOk(th.s.pc, doing, frame, t))
      requires forall t | t in th.s.sleepers && !SleepsOn(th.s.addr, t, a) ::
                 SleeperOk(t, th.s.addr, doing, count, owner)
      modifies th
      ensures th.Valid() && SleepersOk(th.s.sleepers, th.s.addr, doing, count, owner)
      ensures th.s == old(th.s).(sleepers := Others(old(th.s).sleepers, old(th.s).addr, a),
                                 ready := old(th.s).ready + Waiting(old(th.s).sleepers, old(th.s).addr, a))
      ensures forall b: nat :: Waiting(th.s.sleepers, th.s.addr, b) ==
                               if a == b then [] else Waiting(old(th.s).sleepers, old(th.s).addr, b)
    {
      WaitingOthers(th.s.sleepers, th.s.addr, a);
      th.Wakeup(a);
      forall b: nat
        ensures Waiting(th.s.sleepers, th.s.addr, b) ==
                  if a == b then [] else Waiting(old(th.s).sleepers, old(th.s).addr, b)
      {
        WakeupEmpties(old(th.s).sleepers, |old(th.s).sleepers|, th.s.addr, a, b);
      }
    }

    /**
     V, by a thread or by an interrupt handler. The assertion in it holds
     exactly if the count is not yet the largest int; if it fails, the kernel
     stops there.
     */
    method V(s: nat) returns (ok: bool)
      requires Valid()
      modifies this`count, this`curspl, this`ups, th
      ensures Valid() && LinesKept(old(th.s), th.s)
      ensures ok <==> old(Count(count, s)) < MAXINT
      ensures !ok ==> count == old(count) && ups == old(ups) && th.s == old(th.s)
      ensures ok ==>
                && count == old(count)[s := old(Count(count, s)) + 1] && ups == old(ups)[s := old(Count(ups, s)) + 1]
                && curspl == old(curspl) && th.s.cur == old(th.s).cur
                && Waiting(th.s.sleepers, th.s.addr, AddrOf(InP(s))) == []
                && th.s.ready == old(th.s).ready + Waiting(old(th.s).sleepers, old(th.s).addr, AddrOf(InP(s)))
                && forall b: nat | b != AddrOf(InP(s)) ::
                     Waiting(th.s.sleepers, th.s.addr, b) == Waiting(old(th.s).sleepers, old(th.s).addr, b)
    {
      var spl := Splhigh();
      ok := Int32(Count(count, s) + 1) > 0;
      if !ok {
        return;
      }
      CountUp(s);
      Wake(AddrOf(InP(s)));
      Splx(spl);
    }

    /** One more, before those who wait for it are woken. */
    method CountUp(s: nat)
      requires Valid() && Count(count, s) < MAXINT
      modifies this`count, this`ups
      ensures count == old(count)[s := old(Count(count, s)) + 1] && ups == old(ups)[s := old(Count(ups, s)) + 1]
      ensures CountsOk(count, init, ups, downs) && CountsFit(count)
      ensures forall t | t in th.s.sleepers && !SleepsOn(th.s.addr, t, AddrOf(InP(s))) ::
                SleeperOk(t, th.s.addr, doing, count, owner)
    {
      ghost var was, wasUps := count, ups;
      count := count[s := Count(count, s) + 1];
      ups := ups[s := Count(ups, s) + 1];
      forall u: nat
        ensures Count(count, u) == Count(init, u) + Count(ups, u) - Count(downs, u) && Count(count, u) <= MAXINT
      {
        assert Count(was, u) == Count(init, u) + Count(wasUps, u) - Count(downs, u) && Count(was, u) <= MAXINT;
      }
      forall t | t in th.s.sleepers && !SleepsOn(th.s.addr, t, AddrOf(InP(s)))
        ensures SleeperOk(t, th.s.addr, doing, count, owner)
      {
        assert SleeperOk(t, th.s.addr, doing, was, owner);
      }
    }

    /** The loop of lock_acquire, from its test on. */
    method TryAcquire(l: nat)
      requires Valid() && th.s.cur != NONE && th.s.cur in frame && curspl > 0
      modifies this`doing, this`owner, this`curspl, this`holding, th
      ensures LinesKept(old(th.s), th.s)
      ensures Valid() && th.s.pc.Keys == old(th.s).pc.Keys
      ensures l in old(owner) ==>
                && owner == old(owner) && holding == old(holding) && th.s.cur == NONE
                && doing == old(doing)[old(th.s).cur := InAcquire(l)]
                && th.s.ready == old(th.s).ready && th.s.sleepers == old(th.s).sleepers + [old(th.s).cur]
      ensures l !in old(owner) ==>
                && owner == old(owner)[l := old(th.s).cur] && holding == old(holding) + {(old(th.s).cur as nat, l)}
                && th.s == old(th.s) && doing == old(doing) && curspl == frame[th.s.cur]
    {
      if l in owner {
        Block(InAcquire(l));
        return;
      }
      ghost var was := owner;
      owner := owner[l := th.s.cur];
      holding := holding + {(th.s.cur as nat, l)};
      forall t | t in th.s.sleepers
        ensures SleeperOk(t, th.s.addr, doing, count, owner)
      {
        assert SleeperOk(t, th.s.addr, doing, count, was);
      }
      Splx(frame[th.s.cur]);
    }

    /** lock_acquire. */
    method Acquire(l: nat)
      requires Valid() && th.s.cur != NONE
      modifies this`doing, this`owner, this`curspl, this`holding, this`frame, th
      ensures LinesKept(old(th.s), th.s)
      ensures Valid() && th.s.pc.Keys == old(th.s).pc.Keys
      ensures l in old(owner) ==>
                && owner == old(owner) && holding == old(holding) && th.s.cur == NONE
                && doing == old(doing)[old(th.s).cur := InAcquire(l)]
                && th.s.ready == old(th.s).ready && th.s.sleepers == old(th.s).sleepers + [old(th.s).cur]
      ensures l !in old(owner) ==>
                && owner == old(owner)[l := old(th.s).cur] && holding == old(holding) + {(old(th.s).cur as nat, l)}
                && th.s == old(th.s) && doing == old(doing) && curspl == old(curspl)
    {
      var spl := Splhigh();
      SetFrame(spl);
      TryAcquire(l);
    }

    /** lock_release: all who wait for the lock get to try again; the interrupt level is what it was. */
    method Release(l: nat)
      requires Valid() && th.s.cur != NONE && l in owner && owner[l] == th.s.cur
      modifies this`owner, this`curspl, this`holding, th
      ensures LinesKept(old(th.s), th.s)
      ensures Valid() && owner == old(owner) - {l} && holding == old(holding) - {(old(th.s).cur as nat, l)}
      ensures curspl == old(curspl) && th.s.cur == old(th.s).cur && th.s.pc == old(th.s).pc
      ensures Waiting(th.s.sleepers, th.s.addr, AddrOf(InAcquire(l))) == []
      ensures th.s.ready == old(th.s).ready + Waiting(old(th.s).sleepers, old(th.s).addr, AddrOf(InAcquire(l)))
      ensures th.s.sleepers == Others(old(th.s).sleepers, old(th.s).addr, AddrOf(InAcquire(l)))
      ensures forall b: nat | b != AddrOf(InAcquire(l)) ::
                Waiting(th.s.sleepers, th.s.addr, b) == Waiting(old(th.s).sleepers, old(th.s).addr, b)
    {
      var spl := Splhigh();
      ghost var was := owner;
      owner := owner - {l};
      holding := holding - {(th.s.cur as nat, l)};
      forall t | t in th.s.sleepers && !SleepsOn(th.s.addr, t, AddrOf(InAcquire(l)))
        ensures SleeperOk(t, th.s.addr, doing, count, owner)
      {
        assert SleeperOk(t, th.s.addr, doing, count, was);
      }
      Wake(AddrOf(InAcquire(l)));
      Splx(spl);
    }

    /**
     cv_wait up to its sleep. lock_release's own splx goes back to the raised
     level, so nothing runs between the release and the sleep: when this step
     ends the lock is free and the caller is last in the line of c.
     */
    method CvWait(c: nat, l: nat)
      requires Valid() && th.s.cur != NONE && l in owner && owner[l] == th.s.cur
      modifies this`doing, this`owner, this`curspl, this`holding, this`frame, th
      ensures LinesKept(old(th.s), th.s)
      ensures Valid() && owner == old(owner) - {l} && holding == old(holding) - {(old(th.s).cur as nat, l)}
      ensures th.s.cur == NONE && doing == old(doing)[old(th.s).cur := InWait(c, l)]
      ensures Waiting(th.s.sleepers, th.s.addr, AddrOf(InWait(c, l))) ==
              Waiting(old(th.s).sleepers, old(th.s).addr, AddrOf(InWait(c, l))) + [old(th.s).cur]
    {
      var spl := Splhigh();
      SetFrame(spl);
      Release(l);
      assert curspl > 0;
      Block(InWait(c, l));
    }

    /** cv_broadcast: the whole line of c becomes runnable, in its order. */
    method CvBroadcast(c: nat)
      requires Valid()
      modifies this`curspl, th
      ensures Valid() && curspl == old(curspl) && th.s.cur == old(th.s).cur
      ensures th.s.ready == old(th.s).ready + Waiting(old(th.s).sleepers, old(th.s).addr, AddrOf(InWait(c, 0)))
      ensures forall b: nat :: Waiting(th.s.sleepers, th.s.addr, b) ==
                               if b == AddrOf(InWait(c, 0)) then [] else Waiting(old(th.s).sleepers, old(th.s).addr, b)
    {
      var spl := Splhigh();
      forall t | t in th.s.sleepers
        ensures SleeperOk(t, th.s.addr, doing, count, owner)
      {}
      Wake(AddrOf(InWait(c, 0)));
      Splx(spl);
    }

    /** cv_signal: the first in the line of c becomes runnable, and no one else does. */
    method CvSignal(c: nat)
      requires Valid()
      modifies this`curspl, th
      ensures Valid() && curspl == old(curspl) && th.s.cur == old(th.s).cur
      ensures var line := Waiting(old(th.s).sleepers, old(th.s).addr, AddrOf(InWait(c, 0)));
              && th.s.ready == old(th.s).ready + (if line == [] then [] else [line[0]])
              && forall b: nat :: Waiting(th.s.sleepers, th.s.addr, b) ==
                                  if b == AddrOf(InWait(c, 0)) && line != [] then line[1..]
                                    else Waiting(old(th.s).sleepers, old(th.s).addr, b)
    {
      var spl := Splhigh();
      var a := AddrOf(InWait(c, 0));
      ghost var ts, addr := th.s.sleepers, th.s.addr;
      th.OneWakeup(a);
      if Waiting(ts, addr, a) != [] {
        ghost var t := Waiting(ts, addr, a)[0];
        ghost var i: nat :| i < |ts| && ts[i] == t && (forall k | 0 <= k < i :: !SleepsOn(addr, ts[k], a))
          && th.s.sleepers == RemoveAt(ts, i);
        WaitingOthers(ts, addr, a);
        assert t in Waiting(ts, addr, a);
        forall b: nat
          ensures Waiting(th.s.sleepers, th.s.addr, b) ==
                    if b == a then Waiting(ts, addr, a)[1..] else Waiting(ts, addr, b)
        {
          OneWakeupAdvances(ts, i, addr, a, b);
        }
        forall u | u in th.s.sleepers
          ensures SleeperOk(u, th.s.addr, doing, count, owner)
        {
          assert u in ts;
        }
      }
      Splx(spl);
    }

    /** thread_yield, up to the switch. */
    method Yield()
      requires Valid() && th.s.cur != NONE
      modifies this`curspl, this`frame, th
      ensures LinesKept(old(th.s), th.s)
      ensures Valid() && th.s.cur == NONE && th.s.ready == old(th.s).ready + [old(th.s).cur]
      ensures th.s.sleepers == old(th.s).sleepers && th.s.pc.Keys == old(th.s).pc.Keys
    {
      var spl := Splhigh();
      SetFrame(spl);
      ghost var t: nat := th.s.cur;
      assert ThreadOk(th.s, th.g.place, t);
      assert th.s.pc.Keys + {t} == th.s.pc.Keys;
      th.Yield();
      forall u: nat
        ensures DoingOk(th.s.pc, doing, frame, u)
      {
        assert u != t ==> DoingOk(old(th.s).pc, doing, old(frame), u);
        assert DoingOk(old(th.s).pc, doing, old(frame), t);
      }
    }

    method Fork(newguy: nat, memory: bool)
      requires Valid() && newguy !in th.s.pc
      modifies th
      ensures LinesKept(old(th.s), th.s)
      ensures Valid() && th.s.cur == old(th.s).cur && th.s.sleepers == old(th.s).sleepers
      ensures th.s.ready == old(th.s).ready + if memory then [newguy] else []
      ensures th.s.pc == if memory then old(th.s).pc[newguy := AtStart] else old(th.s).pc
    {
      var r := th.Fork(newguy, memory);
      forall u: nat
        ensures DoingOk(th.s.pc, doing, frame, u)
      {
        assert DoingOk(old(th.s).pc, doing, frame, u);
      }
    }

    method Exit()
      requires Valid() && th.s.cur != NONE
      modifies this`curspl, th
      ensures LinesKept(old(th.s), th.s)
      ensures Valid() && th.s.cur == NONE && th.s.ready == old(th.s).ready && th.s.sleepers == old(th.s).sleepers
      ensures th.s.pc.Keys == old(th.s).pc.Keys
    {
      var spl := Splhigh();
      ghost var t: nat := th.s.cur;
      assert ThreadOk(th.s, th.g.place, t);
      assert th.s.pc.Keys + {t} == th.s.pc.Keys;
      th.Exit();
      forall u: nat
        ensures DoingOk(th.s.pc, doing, frame, u)
      {
        assert DoingOk(old(th.s).pc, doing, frame, u);
      }
    }

    /**
     The scheduler's choice gets the processor: a new thread starts, or a
     switched-out one is back from its sleep or yield.
     */
    method Resume() returns (asleep: bool, d: Doing)
      requires Valid() && th.s.cur == NONE && th.s.ready != []
      modifies this`doing, this`curspl, th
      ensures LinesKept(old(th.s), th.s)
      ensures Valid() && th.s.cur == old(th.s).ready[0] && th.s.ready == old(th.s).ready[1..]
      ensures th.s.sleepers == old(th.s).sleepers && th.s.pc.Keys == old(th.s).pc.Keys
      ensures asleep <==> th.s.cur in old(doing)
      ensures asleep ==>
                d == old(doing)[th.s.cur] && doing == old(doing) - {th.s.cur} && curspl == SPL_HIGH && th.s.cur in frame
      ensures !asleep ==> doing == old(doing)
    {
      var t := th.s.ready[0];
      assert t in th.s.ready && ThreadOk(th.s, th.g.place, t) && DoingOk(th.s.pc, doing, frame, t);
      assert t !in th.s.sleepers && th.s.pc.Keys + {t} == th.s.pc.Keys;
      var resume := th.s.pc[t];
      th.Dispatch();
      asleep := t in doing;
      d := if asleep then doing[t] else InP(0);
      doing := doing - {t};
      assert !asleep ==> doing == old(doing);
      SameLines(old(th.s), th.s, t);
      curspl := if asleep then SPL_HIGH else if resume == AtStart then 0 else frame[t];
      forall u: nat
        ensures DoingOk(th.s.pc, doing, frame, u)
      {
        assert DoingOk(old(th.s).pc, old(doing), frame, u);
      }
      forall u | u in th.s.sleepers
        ensures SleeperOk(u, th.s.addr, doing, count, owner)
      {
        assert SleeperOk(u, old(th.s).addr, old(doing), count, owner) && ThreadOk(old(th.s), old(th.g).place, u);
      }
    }

    /**
     One context switch. A thread that was asleep looks again at what it waits
     for: it returns from P having taken a count, from lock_acquire or cv_wait
     owning the lock, or goes back to sleep.
     */
    method Switch()
      requires Valid() && th.s.cur == NONE && th.s.ready != []
      modifies this`doing, this`curspl, this`count, this`downs, this`owner, this`holding, th
      ensures LinesKept(old(th.s), th.s)
      ensures Valid()
      ensures th.s.cur == NONE || th.s.cur == old(th.s).ready[0]
      ensures th.s.cur == NONE <==>
                old(th.s).ready[0] in old(doing) && MustSleep(old(doing)[old(th.s).ready[0]], old(count), old(owner))
      ensures th.s.cur in old(doing) ==> Returned(old(doing)[th.s.cur], old(count), count, old(owner), owner, th.s.cur)
      ensures th.s.cur !in old(doing) ==> count == old(count) && owner == old(owner)
      ensures var t := old(th.s).ready[0];
              && th.s.ready == old(th.s).ready[1..] && th.s.pc.Keys == old(th.s).pc.Keys
              && th.s.sleepers == (if th.s.cur == NONE then old(th.s).sleepers + [t] else old(th.s).sleepers)
              && (th.s.cur != NONE ==> doing == old(doing) - {t})
              && (th.s.cur == NONE ==> t in old(doing) && doing == old(doing)[t := Again(old(doing)[t])])
    {
      var asleep, d := Resume();
      if !asleep {
        return;
      }
      match d
      case InP(s) => TryP(s);
      case InAcquire(l) => TryAcquire(l);
      case InWait(c, l) => TryAcquire(l);
    }
  }

  // ---- Runs ------------------------------------------------------------

  datatype Call =
    | CallP(s: nat) | CallV(s: nat) | CallAcquire(l: nat) | CallRelease(l: nat) | CallWait(c: nat, l: nat)
    | CallSignal(c: nat)
    | CallBroadcast(c: nat) | CallYield | CallFork(t: nat, memory: bool) | CallExit | Scheduler

  /** The current thread makes a call, an interrupt handler does a V, or the processor is free and someone is ready. */
  predicate Possible(s: State, owner: map<nat, nat>, c: Call) {
    match c
    case CallV(_) => true
    case Scheduler => s.cur == NONE && s.ready != []
    case CallRelease(l) => s.cur != NONE && l in owner && owner[l] == s.cur
    case CallWait(_, l) => s.cur != NONE && l in owner && owner[l] == s.cur
    case CallFork(t, _) => s.cur != NONE && t !in s.pc
    case _ => s.cur != NONE
  }

  /** The call does not signal c. */
  predicate Spares(call: Call, c: nat) {
    call != CallSignal(c) && call != CallBroadcast(c)
  }

  predicate Unsignalled(calls: seq<Call>, c: nat) {
    forall n | 0 <= n < |calls| :: Spares(calls[n], c)
  }

  /** The call is a V on a semaphore whose count is the largest int. */
  predicate Overflows(count: map<nat, nat>, call: Call) {
    call.CallV? && Count(count, call.s) == MAXINT
  }

  method Step(k: Synch, call: Call)
    requires k.Valid() && Possible(k.th.s, k.owner, call) && !Overflows(k.count, call)
    modifies k, k.th
    ensures k.Valid()
    ensures forall c: nat {:trigger Line(k.th.s, c)} | Spares(call, c) :: Line(old(k.th.s), c) <= Line(k.th.s, c)
  {
    match call
    case CallP(s) => k.P(s);
    case CallV(s) =>
      assert Count(k.count, s) <= MAXINT;
      var ok := k.V(s);
    case CallAcquire(l) => k.Acquire(l);
    case CallRelease(l) => k.Release(l);
    case CallWait(c, l) => k.CvWait(c, l);
    case CallSignal(c) => k.CvSignal(c);
    case CallBroadcast(c) => k.CvBroadcast(c);
    case CallYield => k.Yield();
    case CallFork(t, memory) => k.Fork(t, memory);
    case CallExit => k.Exit();
    case Scheduler => k.Switch();
  }

  /**
   Every run keeps the invariant, up to a V that would make a count overflow
   and fails its assertion. So in every state it reaches locks exclude, counts
   balance and no sleeper is stranded; and whoever waits on a condition variable
   keeps waiting until it is signalled.
   */
  method Execute(k: Synch, calls: seq<Call>) returns (n: nat)
    requires k.Valid()
    modifies k, k.th
    ensures k.Valid() && n <= |calls| && (n < |calls| ==> Overflows(k.count, calls[n]))
    ensures forall c: nat | Unsignalled(calls[..n], c) :: Line(old(k.th.s), c) <= Line(k.th.s, c)
  {
    n := 0;
    while n < |calls| && !Overflows(k.count, calls[n])
      invariant k.Valid() && n <= |calls|
      invariant forall c: nat | Unsignalled(calls[..n], c) :: Line(old(k.th.s), c) <= Line(k.th.s, c)
    {
      assert calls[..n + 1] == calls[..n] + [calls[n]];
      assert forall c: nat | Unsignalled(calls[..n + 1], c) :: Unsignalled(calls[..n], c) && Spares(calls[n], c);
      if Possible(k.th.s, k.owner, calls[n]) {
        Step(k, calls[n]);
      }
      n := n + 1;
    }
  }

  /** For instance: a V on a semaphore made with the largest count fails. */
  method LastV() returns (ok: bool)
    ensures !ok
  {
    var k := new Synch(0, map[0 := MAXINT]);
    ok := k.V(0);
  }
}
