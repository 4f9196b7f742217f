/**
 The thread system on the lists it really uses: the run queue is a ring
 (kern/lib/queue.c), sleepers[] and zombies[] are arrays (kern/lib/array.c).
 Each operation does to the lists what Threads says, and asks for memory
 exactly when its contract says so. thread.c asserts that none of its calls
 outside thread_fork ever has to; a result of OutOfMemory is that assertion
 failing.
 */
module ThreadLists {
  import opened Basics
  import opened Threads
  import P = PtrArray
  import Q = Queue

  /** The three lists, and how much room each has. */
  datatype Room = Room(ready: seq<nat>, slots: nat, sleepers: seq<nat>, beds: nat, zombies: seq<nat>, graves: nat)

  class Store {
    const ready: Q.Queue<nat>
    const sleepers: P.PtrArray<nat>
    const zombies: P.PtrArray<nat>
    ghost var r: Room
    ghost var Repr: set<object>

    ghost predicate Valid()
      reads this, Repr
      ensures Valid() ==> this in Repr
    {
      && {this, ready, sleepers, zombies} <= Repr && ready.data in Repr
      && this !in {ready, ready.data, sleepers, zombies}
      && (sleepers.v != null ==> sleepers.v in Repr) && (zombies.v != null ==> zombies.v in Repr)
      && ready.Valid() && sleepers.Valid() && zombies.Valid() && sleepers != zombies
      && ready.data != sleepers.v && ready.data != zombies.v && (sleepers.v != null ==> sleepers.v != zombies.v)
      && r == Room(ready.Contents(), ready.size, sleepers.Contents(), sleepers.max, zombies.Contents(), zombies.max)
    }

    /** thread_bootstrap and scheduler_bootstrap. */
    constructor ()
      ensures Valid() && fresh(Repr) && r == Room([], 32, [], 0, [], 0)
    {
      ready := new Q.Queue<nat>.Create(32);
      sleepers := new P.PtrArray<nat>.Create();
      zombies := new P.PtrArray<nat>.Create();
      new;
      Repr := {this, ready, ready.data, sleepers, zombies};
      r := Room([], 32, [], 0, [], 0);
    }

    /** array_preallocate on both arrays. */
    method ReserveArrays(n: nat, m1: bool, m2: bool) returns (ok: MemStatus)
      requires Valid()
      modifies Repr
      ensures Valid() && fresh(Repr - old(Repr)) && (ok.Success? <==> m1 && m2)
      ensures r == old(r).(beds := if m1 then P.Grown(old(r).beds, n) else old(r).beds,
                           graves := if m1 && m2 then P.Grown(old(r).graves, n) else old(r).graves)
    {
      ok := sleepers.Preallocate(n, m1);
      if ok.Success? {
        Repr := Repr + {sleepers.v};
        r := r.(beds := sleepers.max);
        ok := zombies.Preallocate(n, m2);
        if ok.Success? {
          Repr := Repr + {zombies.v};
          r := r.(graves := zombies.max);
        }
      }
    }

    /** scheduler_preallocate. */
    method ReserveSlots(n: nat, memory: bool) returns (ok: MemStatus)
      requires Valid()
      modifies Repr
      ensures Valid() && fresh(Repr - old(Repr)) && r == old(r).(slots := r.slots)
      ensures ok.OutOfMemory? <==> n > old(r).slots && !memory
      ensures r.slots == if ok.Success? then Q.DoubledTo(old(r).slots, n) else old(r).slots
    {
      Q.RingLength(ready.data[..], ready.nextread, ready.nextwrite);
      ok := ready.Preallocate(n, memory);
      Repr := Repr + {ready.data};
      r := r.(slots := ready.size);
    }

    /** make_runnable. */
    method MakeRunnable(t: nat, memory: bool) returns (ok: MemStatus)
      requires Valid()
      modifies Repr
      ensures Valid() && fresh(Repr - old(Repr))
      ensures ok.OutOfMemory? <==> |old(r).ready| + 1 == old(r).slots && !memory
      ensures ok.OutOfMemory? ==> r == old(r)
      ensures ok.Success? ==>
                r == old(r).(ready := old(r).ready + [t],
                             slots := if |old(r).ready| + 1 == old(r).slots then 2 * old(r).slots else old(r).slots)
    {
      ok := ready.AddTail(t, memory);
      Repr := Repr + {ready.data};
      r := r.(ready := ready.Contents(), slots := ready.size);
    }

    /** The run queue never fills its ring. */
    lemma SlotFree()
      requires Valid()
      ensures |r.ready| < r.slots
    {
      Q.RingLength(ready.data[..], ready.nextread, ready.nextwrite);
    }

    /** array_add on sleepers[]. */
    method AddSleeper(t: nat, memory: bool) returns (ok: MemStatus)
      requires Valid()
      modifies Repr
      ensures Valid() && fresh(Repr - old(Repr))
      ensures ok.OutOfMemory? <==> |old(r).sleepers| == old(r).beds && !memory
      ensures ok.OutOfMemory? ==> r == old(r)
      ensures ok.Success? ==>
                r == old(r).(sleepers := old(r).sleepers + [t], beds := P.Grown(old(r).beds, |old(r).sleepers| + 1))
    {
      ok := sleepers.Add(t, memory);
      if ok.Success? {
        Repr := Repr + {sleepers.v};
        r := r.(sleepers := sleepers.Contents(), beds := sleepers.max);
      }
    }

    /** array_getguy and array_getnum on sleepers[]. */
    method Sleeper(i: nat) returns (end: bool, t: nat)
      requires Valid() && i <= |r.sleepers|
      ensures (end <==> i == |r.sleepers|) && (!end ==> t == r.sleepers[i])
    {
      end, t := i >= sleepers.num, 0;
      if !end {
        t := sleepers.GetGuy(i);
      }
    }

    /** array_remove on sleepers[]. */
    method RemoveSleeper(i: nat)
      requires Valid() && i < |r.sleepers|
      modifies Repr
      ensures Valid() && fresh(Repr - old(Repr)) && r == old(r).(sleepers := RemoveAt(old(r).sleepers, i))
    {
      sleepers.Remove(i);
      r := r.(sleepers := RemoveAt(r.sleepers, i));
    }

    /** One thread from sleepers[] to the run queue. */
    method Move(i: nat, memory: bool) returns (ok: MemStatus)
      requires Valid() && i < |r.sleepers|
      modifies Repr
      ensures Valid() && fresh(Repr - old(Repr))
      ensures ok.OutOfMemory? <==> |old(r).ready| + 1 == old(r).slots && !memory
      ensures ok.OutOfMemory? ==> r.slots == old(r).slots
      ensures ok.Success? ==>
                r == old(r).(sleepers := RemoveAt(old(r).sleepers, i), ready := old(r).ready + [old(r).sleepers[i]],
                             slots := if |old(r).ready| + 1 == old(r).slots then 2 * old(r).slots else old(r).slots)
    {
      var end, t := Sleeper(i);
      RemoveSleeper(i);
      ok := MakeRunnable(t, memory);
    }

    /** One round of thread_wakeup's loop: the thread in place i stays, or goes and place i is looked at again. */
    method MoveIf(i: nat, addr: map<nat, nat>, a: nat, memory: bool) returns (ok: MemStatus, next: nat)
      requires Valid() && i < |r.sleepers|
      modifies Repr
      ensures Valid() && fresh(Repr - old(Repr)) && |r.ready| < r.slots
      ensures var end := Walked(old(r).sleepers, old(r).ready, i, addr, a);
              && (ok.OutOfMemory? ==> !memory && old(r).slots <= |end.1|)
              && (ok.Success? ==> Walked(r.sleepers, r.ready, next, addr, a) == end && next <= |r.sleepers|)
      ensures ok.Success? ==> r == old(r).(sleepers := r.sleepers, ready := r.ready, slots := r.slots)
      ensures ok.Success? ==> |r.sleepers| - next < |old(r).sleepers| - i && |r.ready| >= |old(r).ready|
      ensures r.slots == old(r).slots
              || (memory && r.slots == 2 * old(r).slots && |old(r).ready| + 1 == old(r).slots
                  && |r.ready| == old(r).slots)
    {
      SlotFree();
      var end, t := Sleeper(i);
      ok, next := Success, i + 1;
      if SleepsOn(addr, t, a) {
        WalkedGrows(RemoveAt(r.sleepers, i), r.ready + [t], i, addr, a);
        ok := Move(i, memory);
        next := i;
        SlotFree();
      }
    }

    /** The loop of thread_wakeup, which removes from the list it walks over. */
    method MoveAll(addr: map<nat, nat>, a: nat, memory: bool) returns (ok: MemStatus)
      requires Valid() && |r.ready| + |Waiting(r.sleepers, addr, a)| <= r.slots
      modifies Repr
      ensures ok.OutOfMemory? <==> |old(r).ready| + |Waiting(old(r).sleepers, addr, a)| == old(r).slots && !memory
      ensures ok.Success? ==>
                Valid() && fresh(Repr - old(Repr)) && (r.slots == old(r).slots || r.slots == 2 * old(r).slots)
      ensures ok.Success? ==>
                r == old(r).(sleepers := Others(old(r).sleepers, addr, a),
                             ready := old(r).ready + Waiting(old(r).sleepers, addr, a),
                             slots := r.slots)
    {
      ghost var r0 := r;
      ghost var goal := Walked(r.sleepers, r.ready, 0, addr, a);
      WalkedAll(r.sleepers, r.ready, addr, a);
      SlotFree();
      var i: nat, end, t := 0, false, 0;
      WalkedGrows(r.sleepers, r.ready, 0, addr, a);
      while !end
        invariant Valid() && fresh(Repr - old(Repr))
        invariant r == r0.(sleepers := r.sleepers, ready := r.ready, slots := r.slots)
        invariant i <= |r.sleepers| && Walked(r.sleepers, r.ready, i, addr, a) == goal && (end ==> i == |r.sleepers|)
        invariant |r.ready| < r.slots && |r.ready| <= |goal.1|
        invariant (r.slots == r0.slots || (memory && r.slots == 2 * r0.slots && |r.ready| >= r0.slots))
        decreases |r.sleepers| - i, !end
      {
        end, t := Sleeper(i);
        if !end {
          ok, i := MoveIf(i, addr, a, memory);
          if ok.OutOfMemory? {
            return;
          }
          WalkedGrows(r.sleepers, r.ready, i, addr, a);
        }
      }
      return Success;
    }

    /** The search of thread_onewakeup. */
    method FindFirst(addr: map<nat, nat>, a: nat) returns (found: bool, i: nat)
      requires Valid()
      ensures found ==> FirstOn(r.sleepers, addr, a, i)
      ensures !found ==> forall k | 0 <= k < |r.sleepers| :: !SleepsOn(addr, r.sleepers[k], a)
    {
      for k := 0 to sleepers.num
        invariant forall j | 0 <= j < k :: !SleepsOn(addr, r.sleepers[j], a)
      {
        var end, t := Sleeper(k);
        if SleepsOn(addr, t, a) {
          return true, k;
        }
      }
      return false, 0;
    }

    /** array_add on zombies[]. */
    method AddZombie(t: nat, memory: bool) returns (ok: MemStatus)
      requires Valid()
      modifies Repr
      ensures Valid() && fresh(Repr - old(Repr))
      ensures ok.OutOfMemory? <==> |old(r).zombies| == old(r).graves && !memory
      ensures ok.OutOfMemory? ==> r == old(r)
      ensures ok.Success? ==>
                r == old(r).(zombies := old(r).zombies + [t], graves := P.Grown(old(r).graves, |old(r).zombies| + 1))
    {
      ok := zombies.Add(t, memory);
      if ok.Success? {
        Repr := Repr + {zombies.v};
        r := r.(zombies := zombies.Contents(), graves := zombies.max);
      }
    }

    /**
     exorcise: no zombie is the current thread; emptying the array needs no
     memory, and gives up storage for more than 16.
     */
    method Exorcise(cur: nat)
      requires Valid() && cur !in r.zombies
      modifies Repr
      ensures Valid() && fresh(Repr - old(Repr))
      ensures r == old(r).(zombies := [], graves := if old(r).graves > 16 then 0 else old(r).graves)
    {
      for i := 0 to zombies.num
        invariant Valid() && r == old(r) && Repr == old(Repr)
      {
        var z := zombies.GetGuy(i);
        assert z == r.zombies[i] && z != cur;
      }
      var result := zombies.SetSize(0, false);
      assert result.Success?;
      r := r.(zombies := [], graves := zombies.max);
    }

    /** The scheduler's choice. */
    method Next() returns (t: nat)
      requires Valid() && r.ready != []
      modifies Repr
      ensures Valid() && fresh(Repr - old(Repr)) && t == old(r).ready[0] && r == old(r).(ready := old(r).ready[1..])
    {
      t := ready.RemHead();
      r := r.(ready := r.ready[1..]);
    }
  }

  class Lists {
    var cur: int
    var num: int
    var addr: map<nat, nat>
    var pc: map<nat, Pc>
    const st: Store

    ghost function S(): State
      reads this, st
    {
      State(cur, st.r.ready, st.r.sleepers, st.r.zombies, num, addr, pc)
    }

    /** The ring has a slot for every live thread, and sleepers[] too once it has been used at all. */
    ghost predicate Valid()
      reads this, st, st.Repr
    {
      && st.Valid() && this !in st.Repr
      && cur >= NONE && num == |Current(S())| + |st.r.ready| + |st.r.sleepers|
      && Q.RingSize(st.r.slots) && num <= st.r.slots && (num <= st.r.beds || (num == 1 && st.r.beds == 0))
    }

    constructor (me: nat)
      ensures Valid() && fresh(st.Repr) && S() == State(me, [], [], [], 1, map[], map[me := Running])
      ensures st.r == Room([], 32, [], 0, [], 0)
    {
      st := new Store();
      cur, num, addr, pc := me, 1, map[], map[me := Running];
    }

    /**
     thread_fork: room in all three lists first, so that a failure changes none
     of them. Any of the three requests may fail for want of memory; the fourth
     call that could ask for some, make_runnable, never does.
     */
    method Fork(newguy: nat, m1: bool, m2: bool, m3: bool, m4: bool) returns (ok: MemStatus)
      requires Valid() && cur != NONE
      modifies this, st.Repr
      ensures Valid() && fresh(st.Repr - old(st.Repr))
      ensures ok.Success? <==> m1 && m2 && (m3 || old(num) < old(st.r).slots)
      ensures ok.OutOfMemory? ==> S() == old(S())
      ensures ok.Success? ==>
                S() == old(S()).(ready := old(S()).ready + [newguy], num := old(num) + 1,
                                 pc := old(pc)[newguy := AtStart])
      ensures ok.Success? ==> st.r.slots == Q.DoubledTo(old(st.r).slots, num)
                              && st.r.beds == P.Grown(old(st.r).beds, num)
                              && st.r.graves == P.Grown(old(st.r).graves, num)
    {
      ok := Reserve(num + 1, m1, m2, m3);
      if ok.Success? {
        ok := st.MakeRunnable(newguy, m4);
        assert ok.Success?;
        num, pc := num + 1, pc[newguy := AtStart];
      }
    }

    method Reserve(n: nat, m1: bool, m2: bool, m3: bool) returns (ok: MemStatus)
      requires Valid() && cur != NONE && n == num + 1
      modifies st.Repr
      ensures Valid() && fresh(st.Repr - old(st.Repr)) && S() == old(S())
      ensures ok.Success? <==> m1 && m2 && (m3 || old(num) < old(st.r).slots)
      ensures ok.Success? ==>
                st.r == old(st.r).(slots := Q.DoubledTo(old(st.r).slots, n), beds := P.Grown(old(st.r).beds, n),
                                   graves := P.Grown(old(st.r).graves, n))
    {
      ok := st.ReserveArrays(n, m1, m2);
      if ok.Success? {
        Q.RingGrown(st.r.slots, n);
        ok := st.ReserveSlots(n, m3);
      }
    }

    /**
     The first half of mi_switch(S_READY). Memory is needed exactly if the other
     live threads are all ready and leave the ring one slot.
     */
    method Yield(memory: bool) returns (ok: MemStatus)
      requires Valid()
      modifies this, st.Repr
      ensures ok.OutOfMemory? <==> old(cur) != NONE && |old(S()).ready| + 1 == old(st.r).slots && !memory
      ensures ok.OutOfMemory? ==> old(num) == old(st.r).slots && old(S()).sleepers == []
      ensures ok.Success? ==> Valid() && fresh(st.Repr - old(st.Repr)) && st.r.graves == old(st.r).graves
      ensures ok.Success? && old(cur) == NONE ==> S() == old(S())
      ensures ok.Success? && old(cur) != NONE ==>
                S() == old(S()).(cur := NONE, ready := old(S()).ready + [old(cur)], pc := old(pc)[old(cur) := InYield])
    {
      if cur == NONE {
        return Success;
      }
      var t: nat := cur;
      cur := NONE;
      Q.RingDoubled(st.r.slots);
      ok := st.MakeRunnable(t, memory);
      pc := pc[t := InYield];
    }

    /**
     The first half of thread_sleep. Memory is needed exactly by the first thread,
     before any fork and any other sleep.
     */
    method Sleep(a: nat, memory: bool) returns (ok: MemStatus)
      requires Valid() && cur != NONE
      modifies this, st.Repr
      ensures ok.OutOfMemory? <==> old(st.r).beds == 0 && !memory
      ensures ok.OutOfMemory? ==> old(num) == 1
      ensures ok.Success? ==>
                Valid() && fresh(st.Repr - old(st.Repr)) && st.r.beds > 0 && st.r.graves == old(st.r).graves
      ensures ok.Success? ==>
                S() == old(S()).(cur := NONE, sleepers := old(S()).sleepers + [old(cur)],
                                 addr := old(addr)[old(cur) := a],
                                 pc := old(pc)[old(cur) := InSleep])
    {
      var t: nat := cur;
      addr, cur := addr[t := a], NONE;
      ok := st.AddSleeper(t, memory);
      pc := pc[t := InSleep];
    }

    /** thread_exit. Memory is needed exactly if zombies[] is full. */
    method Exit(memory: bool) returns (ok: MemStatus)
      requires Valid() && cur != NONE
      modifies this, st.Repr
      ensures ok.OutOfMemory? <==> |old(S()).zombies| == old(st.r).graves && !memory
      ensures ok.Success? ==>
                Valid() && fresh(st.Repr - old(st.Repr)) && st.r.graves == P.Grown(old(st.r).graves, |S().zombies|)
      ensures ok.Success? ==>
                S() == old(S()).(cur := NONE, zombies := old(S()).zombies + [old(cur)], num := old(num) - 1,
                                 pc := old(pc)[old(cur) := InExit])
    {
      var t: nat := cur;
      assert num > 0;
      num, cur := num - 1, NONE;
      ok := st.AddZombie(t, memory);
      pc := pc[t := InExit];
    }

    /** thread_wakeup. Memory is needed exactly if the ready threads come to fill the whole ring. */
    method Wakeup(a: nat, memory: bool) returns (ok: MemStatus)
      requires Valid()
      modifies st.Repr
      ensures ok.OutOfMemory? <==>
                |old(S()).ready| + |Waiting(old(S()).sleepers, addr, a)| == old(st.r).slots && !memory
      ensures ok.OutOfMemory? ==> num == old(st.r).slots
      ensures ok.Success? ==> Valid() && fresh(st.Repr - old(st.Repr)) && st.r.graves == old(st.r).graves
      ensures ok.Success? ==> S() == old(S()).(sleepers := Others(old(S()).sleepers, addr, a),
                                               ready := old(S()).ready + Waiting(old(S()).sleepers, addr, a))
    {
      WaitingOthers(st.r.sleepers, addr, a);
      Q.RingDoubled(st.r.slots);
      ok := st.MoveAll(addr, a, memory);
    }

    /** thread_onewakeup. */
    method OneWakeup(a: nat, memory: bool) returns (ok: MemStatus)
      requires Valid()
      modifies st.Repr
      ensures ok.OutOfMemory? <==>
                Waiting(old(S()).sleepers, addr, a) != [] && |old(S()).ready| + 1 == old(st.r).slots && !memory
      ensures ok.OutOfMemory? ==> num == old(st.r).slots
      ensures ok.Success? ==> Valid() && fresh(st.Repr - old(st.Repr)) && st.r.graves == old(st.r).graves
      ensures ok.Success? && Waiting(old(S()).sleepers, addr, a) == [] ==> S() == old(S())
      ensures ok.Success? && Waiting(old(S()).sleepers, addr, a) != [] ==>
                exists i: nat :: FirstOn(old(S()).sleepers, addr, a, i)
                                 && S() == old(S()).(sleepers := RemoveAt(old(S()).sleepers, i),
                                                     ready := old(S()).ready + [old(S()).sleepers[i]])
    {
      var found, i := st.FindFirst(addr, a);
      ok := Success;
      if found {
        FirstWaiting(st.r.sleepers, |st.r.sleepers|, addr, a, i);
        Q.RingDoubled(st.r.slots);
        ok := st.Move(i, memory);
      } else {
        NoneWaiting(st.r.sleepers, |st.r.sleepers|, addr, a);
      }
    }

    /** The second half of mi_switch; exorcise asks for no memory. */
    method Dispatch()
      requires Valid() && cur == NONE && S().ready != [] && S().ready[0] in pc && S().ready[0] !in S().zombies
      modifies this, st.Repr
      ensures Valid() && fresh(st.Repr - old(st.Repr))
      ensures var (next, resume) := (old(S()).ready[0], old(pc)[old(S()).ready[0]]);
              && S() == old(S()).(cur := next, ready := old(S()).ready[1..], pc := old(pc)[next := Running],
                                  zombies := if resume == AtStart then old(S()).zombies else [],
                                  addr := if resume == InSleep then old(addr) - {next} else old(addr))
              && st.r.graves == if resume != AtStart && old(st.r).graves > 16 then 0 else old(st.r).graves
    {
      var next := st.Next();
      var resume := pc[next];
      cur, pc := next, pc[next := Running];
      if resume != AtStart {
        Resume(next, resume);
      }
    }

    /** What a thread does when it comes back from md_switch. */
    method Resume(t: nat, resume: Pc)
      requires Valid() && cur == t && t !in S().zombies
      modifies this, st.Repr
      ensures Valid() && fresh(st.Repr - old(st.Repr))
      ensures S() == old(S()).(zombies := [], addr := if resume == InSleep then old(addr) - {t} else old(addr))
      ensures st.r.graves == if old(st.r).graves > 16 then 0 else old(st.r).graves
    {
      st.Exorcise(t);
      if resume == InSleep {
        addr := addr - {t};
      }
    }
  }

  /** Place i is the first that holds a thread asleep on a. */
  ghost predicate FirstOn(ts: seq<nat>, addr: map<nat, nat>, a: nat, i: nat) {
    i < |ts| && SleepsOn(addr, ts[i], a) && forall k | 0 <= k < i :: !SleepsOn(addr, ts[k], a)
  }

  // ---- The walk of thread_wakeup ---------------------------------------

  /** The sleepers and the run queue that the loop of thread_wakeup ends with when it goes on from place i. */
  ghost function Walked(ts: seq<nat>, queue: seq<nat>, i: nat, addr: map<nat, nat>, a: nat): (seq<nat>, seq<nat>)
    decreases |ts| - i
  {
    if i >= |ts| then (ts, queue)
    else if SleepsOn(addr, ts[i], a) then Walked(RemoveAt(ts, i), queue + [ts[i]], i, addr, a)
    else Walked(ts, queue, i + 1, addr, a)
  }

  lemma {:induction false} WalkedGrows(ts: seq<nat>, queue: seq<nat>, i: nat, addr: map<nat, nat>, a: nat)
    ensures |Walked(ts, queue, i, addr, a).1| >= |queue|
    decreases |ts| - i
  {
    if i < |ts| {
      if SleepsOn(addr, ts[i], a) {
        WalkedGrows(RemoveAt(ts, i), queue + [ts[i]], i, addr, a);
      } else {
        WalkedGrows(ts, queue, i + 1, addr, a);
      }
    }
  }

  lemma {:induction false} WalkedFrom(all: seq<nat>, queue: seq<nat>, k: nat, addr: map<nat, nat>, a: nat)
    requires k <= |all|
    ensures var done := OthersIn(all, k, addr, a);
            Walked(done + all[k..], queue + WaitingIn(all, k, addr, a), |done|, addr, a) ==
              (Others(all, addr, a), queue + Waiting(all, addr, a))
    decreases |all| - k
  {
    var (done, ready) := (OthersIn(all, k, addr, a), queue + WaitingIn(all, k, addr, a));
    if k == |all| {
      assert done + all[k..] == done;
    } else {
      WalkOne(done + all[k..], all, k, addr, a);
      WaitingNext(queue, all, k, addr, a);
      WalkedFrom(all, queue, k + 1, addr, a);
    }
  }

  /** It is what thread_wakeup is specified to do. */
  lemma WalkedAll(all: seq<nat>, queue: seq<nat>, addr: map<nat, nat>, a: nat)
    ensures Walked(all, queue, 0, addr, a) == (Others(all, addr, a), queue + Waiting(all, addr, a))
  {
    WalkedFrom(all, queue, 0, addr, a);
    assert [] + all[0..] == all && queue + [] == queue;
  }

  // ---- Runs ------------------------------------------------------------

  /** Which of the calls that should not fail need memory. */
  predicate NeedsMemory(s: State, r: Room, op: Op) {
    match op
    case OpYield => s.cur != NONE && |s.ready| + 1 == r.slots
    case OpSleep(_) => r.beds == 0
    case OpExit => |s.zombies| == r.graves
    case OpWakeup(a) => |s.ready| + |Waiting(s.sleepers, s.addr, a)| == r.slots
    case OpOneWakeup(a) => Waiting(s.sleepers, s.addr, a) != [] && |s.ready| + 1 == r.slots
    case OpFork(_, _) => false
    case OpDispatch => false
  }

  /**
   In every state that can be reached, a call that makes threads runnable needs
   memory only when the number of live threads is a size of the ring (32, 64
   and so on), and a sleep only while one thread has been alone since boot.
   */
  lemma WhenNeeded(l: Lists, op: Op)
    requires l.Valid() && NeedsMemory(l.S(), l.st.r, op) && (op.OpSleep? ==> l.cur != NONE)
    ensures op.OpYield? || op.OpWakeup? || op.OpOneWakeup? ==> l.num == l.st.r.slots && Q.RingSize(l.num)
    ensures op.OpSleep? ==> l.num == 1 && l.S().sleepers == []
    ensures !op.OpFork? && !op.OpDispatch?
  {
    match op
    case OpWakeup(a) => WaitingOthers(l.S().sleepers, l.addr, a);
    case OpOneWakeup(a) => WaitingOthers(l.S().sleepers, l.addr, a);
    case _ =>
  }

  /** The two run side by side; the lists are left alone by the other. */
  ghost predicate InStep(l: Lists, th: Threads)
    reads l, l.st, l.st.Repr, th
  {
    l.Valid() && th.Valid() && l.S() == th.s && th !in l.st.Repr
  }

  /** Both took the same thread: the first asleep on a. */
  lemma SameWoken(s: State, s1: State, s2: State, a: nat)
    requires Waiting(s.sleepers, s.addr, a) != []
    requires exists i: nat ::
               FirstOn(s.sleepers, s.addr, a, i)
               && s1 == s.(sleepers := RemoveAt(s.sleepers, i), ready := s.ready + [s.sleepers[i]])
    requires var t := Waiting(s.sleepers, s.addr, a)[0];
             exists j: nat ::
               && j < |s.sleepers| && s.sleepers[j] == t
               && (forall k | 0 <= k < j :: !SleepsOn(s.addr, s.sleepers[k], a))
               && s2 == s.(sleepers := RemoveAt(s.sleepers, j), ready := s.ready + [t])
    ensures s1 == s2
  {
    WaitingOthers(s.sleepers, s.addr, a);
    var t := Waiting(s.sleepers, s.addr, a)[0];
    assert t in Waiting(s.sleepers, s.addr, a);
    var i: nat :| FirstOn(s.sleepers, s.addr, a, i)
      && s1 == s.(sleepers := RemoveAt(s.sleepers, i), ready := s.ready + [s.sleepers[i]]);
    var j: nat :| j < |s.sleepers| && s.sleepers[j] == t
      && (forall k | 0 <= k < j :: !SleepsOn(s.addr, s.sleepers[k], a))
      && s2 == s.(sleepers := RemoveAt(s.sleepers, j), ready := s.ready + [t]);
    assert i == j;
  }

  method StepOneWakeup(l: Lists, th: Threads, a: nat, memory: bool) returns (ok: MemStatus)
    requires InStep(l, th)
    modifies l.st.Repr, th
    ensures ok.OutOfMemory? <==> NeedsMemory(old(th.s), old(l.st.r), OpOneWakeup(a)) && !memory
    ensures ok.Success? ==> InStep(l, th) && fresh(l.st.Repr - old(l.st.Repr))
  {
    ghost var s := th.s;
    ok := l.OneWakeup(a, memory);
    th.OneWakeup(a);
    if ok.Success? && Waiting(s.sleepers, s.addr, a) != [] {
      SameWoken(s, l.S(), th.s, a);
    }
  }

  method StepYield(l: Lists, th: Threads, memory: bool) returns (ok: MemStatus)
    requires InStep(l, th) && CanHappen(th.s, OpYield)
    modifies l, l.st.Repr, th
    ensures ok.OutOfMemory? <==> NeedsMemory(old(th.s), old(l.st.r), OpYield) && !memory
    ensures ok.Success? ==> InStep(l, th) && fresh(l.st.Repr - old(l.st.Repr))
  {
    ok := l.Yield(memory);
    th.Yield();
  }

  method StepSleep(l: Lists, th: Threads, a: nat, memory: bool) returns (ok: MemStatus)
    requires InStep(l, th) && CanHappen(th.s, OpSleep(a))
    modifies l, l.st.Repr, th
    ensures ok.OutOfMemory? <==> NeedsMemory(old(th.s), old(l.st.r), OpSleep(a)) && !memory
    ensures ok.Success? ==> InStep(l, th) && fresh(l.st.Repr - old(l.st.Repr))
  {
    ok := l.Sleep(a, memory);
    th.Sleep(a);
  }

  method StepExit(l: Lists, th: Threads, memory: bool) returns (ok: MemStatus)
    requires InStep(l, th) && CanHappen(th.s, OpExit)
    modifies l, l.st.Repr, th
    ensures ok.OutOfMemory? <==> NeedsMemory(old(th.s), old(l.st.r), OpExit) && !memory
    ensures ok.Success? ==> InStep(l, th) && fresh(l.st.Repr - old(l.st.Repr))
  {
    ok := l.Exit(memory);
    th.Exit();
  }

  method StepWakeup(l: Lists, th: Threads, a: nat, memory: bool) returns (ok: MemStatus)
    requires InStep(l, th) && CanHappen(th.s, OpWakeup(a))
    modifies l, l.st.Repr, th
    ensures ok.OutOfMemory? <==> NeedsMemory(old(th.s), old(l.st.r), OpWakeup(a)) && !memory
    ensures ok.Success? ==> InStep(l, th) && fresh(l.st.Repr - old(l.st.Repr))
  {
    ok := l.Wakeup(a, memory);
    th.Wakeup(a);
  }

  method StepFork(l: Lists, th: Threads, t: nat, m1: bool, m2: bool, m3: bool)
    requires InStep(l, th) && th.s.cur != NONE && t !in th.s.pc
    modifies l, l.st.Repr, th
    ensures InStep(l, th) && fresh(l.st.Repr - old(l.st.Repr))
  {
    var r := l.Fork(t, m1, m2, m3, false);
    r := th.Fork(t, r.Success?);
  }

  method StepDispatch(l: Lists, th: Threads)
    requires InStep(l, th) && CanHappen(th.s, OpDispatch)
    modifies l, l.st.Repr, th
    ensures InStep(l, th) && fresh(l.st.Repr - old(l.st.Repr))
  {
    assert ThreadOk(th.s, th.g.place, th.s.ready[0]);
    l.Dispatch();
    th.Dispatch();
  }

  /**
   One call; memory says whether there is any for it, and m2 and m3 for the second
   and third request of thread_fork.
   */
  method Step(l: Lists, th: Threads, op: Op, memory: bool, m2: bool, m3: bool) returns (ok: MemStatus)
    requires InStep(l, th) && CanHappen(th.s, op)
    modifies l, l.st.Repr, th
    ensures ok.OutOfMemory? <==> NeedsMemory(old(th.s), old(l.st.r), op) && !memory
    ensures ok.Success? ==> InStep(l, th) && fresh(l.st.Repr - old(l.st.Repr))
  {
    ok := Success;
    match op
    case OpFork(t, _) => StepFork(l, th, t, memory, m2, m3);
    case OpYield => ok := StepYield(l, th, memory);
    case OpSleep(a) => ok := StepSleep(l, th, a, memory);
    case OpExit => ok := StepExit(l, th, memory);
    case OpWakeup(a) => ok := StepWakeup(l, th, a, memory);
    case OpOneWakeup(a) => ok := StepOneWakeup(l, th, a, memory);
    case OpDispatch => StepDispatch(l, th);
  }

  /** A call, and what memory there is for it. */
  datatype Attempt = Attempt(op: Op, memory: bool, m2: bool, m3: bool)

  /**
   Any run on the real lists, up to an assertion that fails for want of memory,
   is the run of the thread system, whose threads are each in one place and
   served in turn. The run ends early exactly at the first call that needs
   memory and has none.
   */
  method Execute(l: Lists, th: Threads, run: seq<Attempt>) returns (n: nat, ok: MemStatus)
    requires InStep(l, th)
    modifies l, l.st.Repr, th
    ensures n <= |run| && (ok.Success? <==> n == |run|)
    ensures ok.Success? ==> InStep(l, th)
    ensures ok.OutOfMemory? ==> !run[n].memory
  {
    for k := 0 to |run|
      invariant InStep(l, th) && fresh(l.st.Repr - old(l.st.Repr))
    {
      if CanHappen(th.s, run[k].op) {
        ok := Step(l, th, run[k].op, run[k].memory, run[k].m2, run[k].m3);
        if ok.OutOfMemory? {
          return k, ok;
        }
      }
    }
    return |run|, Success;
  }

  // ---- Runs in which a call that should not fail does ------------------

  /** The boot thread goes to sleep before it has forked. */
  method FirstSleep(a: nat) returns (ok: MemStatus)
    ensures ok.OutOfMemory?
  {
    var l := new Lists(0);
    ok := l.Sleep(a, false);
  }

  /** n threads, all but the current one ready: it can yield without memory exactly if n is not a size of the ring. */
  method ForkAndYield(n: nat) returns (ok: MemStatus)
    requires n >= 1
    ensures ok.OutOfMemory? <==> Q.RingSize(n)
  {
    var l := new Lists(0);
    for i := 1 to n
      invariant l.Valid() && fresh(l) && fresh(l.st.Repr) && l.cur == 0 && l.num == i
      invariant |l.st.r.ready| == i - 1 && l.st.r.slots == Q.DoubledTo(32, i)
    {
      ok := l.Fork(i, true, true, true, true);
      Q.DoubledAgain(32, i, i + 1);
    }
    Q.SpareSlot(n);
    ok := l.Yield(false);
  }

  /** Thread 0 has forked thread 1. */
  method OneForked() returns (l: Lists)
    ensures fresh(l) && fresh(l.st.Repr) && l.Valid()
    ensures l.S() == State(0, [1], [], [], 2, map[], map[0 := Running, 1 := AtStart])
    ensures l.st.r == Room([1], 32, [], 2, [], 2)
  {
    l := new Lists(0);
    var ok := l.Fork(1, true, true, true, true);
  }

  method FirstHanded() returns (l: Lists)
    ensures fresh(l) && fresh(l.st.Repr) && Handed(l, 2)
  {
    l := OneForked();
    var ok := l.Yield(true);
    l.Dispatch();
  }

  /** Thread 1 runs, thread 0 is next and will return from its yield, and there are n threads. */
  ghost predicate Handed(l: Lists, n: nat)
    reads l, l.st, l.st.Repr
  {
    && l.Valid() && l.cur == 1 && l.num == n && l.st.r.zombies == [] && l.st.r.graves == P.Grown(0, n)
    && l.st.r.ready != [] && l.st.r.ready[0] == 0 && 0 in l.pc && l.pc[0] == InYield
  }

  method ForkUpTo(l: Lists, n: nat)
    requires n >= 2 && Handed(l, 2)
    modifies l, l.st.Repr
    ensures Handed(l, n) && fresh(l.st.Repr - old(l.st.Repr))
  {
    for i := 2 to n
      invariant Handed(l, i) && fresh(l.st.Repr - old(l.st.Repr))
    {
      var ok := l.Fork(i, true, true, true, true);
      P.GrownTwice(0, i, i + 1);
    }
  }

  /**
   n threads, and one that comes back to the processor: exorcise has dropped the
   room for zombies exactly if n is 15 or more.
   */
  method ForkAndExit(n: nat) returns (ok: MemStatus)
    requires n >= 2
    ensures ok.OutOfMemory? <==> n >= 15
  {
    var l := FirstHanded();
    ForkUpTo(l, n);
    ok := l.Yield(true);
    l.Dispatch();
    P.GrownFrom0(n);
    ok := l.Exit(false);
  }

  /** Thread i has just started, thread 0 sleeps, and the i - 1 threads between them are dead. */
  ghost predicate Link(l: Lists, i: nat)
    reads l, l.st, l.st.Repr
  {
    && l.Valid() && l.cur == i > 0 && l.num == 2 && l.st.r.ready == [] && l.st.r.graves == (if i == 1 then 2 else 6)
    && |l.st.r.zombies| == i - 1 && forall z | z in l.st.r.zombies :: z < i
  }

  method FirstLink() returns (l: Lists)
    ensures fresh(l) && fresh(l.st.Repr) && Link(l, 1)
  {
    l := OneForked();
    var ok := l.Sleep(5, true);
    l.Dispatch();
  }

  method ForkAndLeave(l: Lists, i: nat, memory: bool) returns (ok: MemStatus)
    requires Link(l, i) && i <= 7
    modifies l, l.st.Repr
    ensures ok.OutOfMemory? <==> i == 7 && !memory
    ensures ok.Success? ==>
              l.Valid() && fresh(l.st.Repr - old(l.st.Repr)) && l.st.r.graves >= 6 && (i < 7 ==> l.st.r.graves == 6)
    ensures ok.Success? ==>
              l.cur == NONE && l.num == 2 && l.st.r.ready == [i + 1] && i + 1 in l.pc && l.pc[i + 1] == AtStart
    ensures ok.Success? ==> l.st.r.zombies == old(l.st.r).zombies + [i]
  {
    ok := l.Fork(i + 1, true, true, true, true);
    ok := l.Exit(memory);
  }

  /** The thread forks the next one and exits. */
  method NextLink(l: Lists, i: nat, memory: bool) returns (ok: MemStatus)
    requires Link(l, i) && i <= 7
    modifies l, l.st.Repr
    ensures ok.OutOfMemory? <==> i == 7 && !memory
    ensures ok.Success? && i < 7 ==> Link(l, i + 1) && fresh(l.st.Repr - old(l.st.Repr))
  {
    ok := ForkAndLeave(l, i, memory);
    if ok.Success? {
      l.Dispatch();
    }
  }

  /**
   Never more than three threads alive: each new one forks the next and exits,
   nobody returns to bury the dead, and the seventh finds no room.
   */
  method ChainOfExits() returns (ok: MemStatus)
    ensures ok.OutOfMemory?
  {
    var l := FirstLink();
    for i := 1 to 7
      invariant Link(l, i) && fresh(l) && fresh(l.st.Repr)
    {
      ok := NextLink(l, i, true);
    }
    ok := NextLink(l, 7, false);
  }
}
