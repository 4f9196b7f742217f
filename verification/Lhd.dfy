/**
 The disk driver (kern/dev/lamebus/lhd.c): many threads share one device
 through two semaphores, and the interrupt handler passes results back. Each
 method is one atomic step of a thread, of the device, or of the handler.
 */
module Lhd {
  import opened Basics

  const SECTSIZE := 512
  const NONE := -1

  datatype Errno = OK | EINVAL | EIO | EAGAIN | EFAULT

  // ---- Status codes ----------------------------------------------------

  const LHD_IDLE: bv8 := 0
  const LHD_WORKING: bv8 := 1
  const LHD_ISWRITE: bv8 := 2
  const LHD_OK: bv8 := 4
  const LHD_INVSECT: bv8 := 12
  const LHD_MEDIA: bv8 := 20
  const LHD_STATEMASK: bv8 := 0x1d

  /** lhd_code_to_errno. */
  function CodeToErrno(code: bv8): Errno {
    var state := code & LHD_STATEMASK;
    if state == LHD_OK then OK else if state == LHD_INVSECT then EINVAL else if state == LHD_MEDIA then EIO else EAGAIN
  }

  predicate IsCompletion(code: bv8) {
    code == LHD_OK || code == LHD_INVSECT || code == LHD_MEDIA
  }

  function Flag(write: bool): bv8 {
    if write then LHD_ISWRITE else 0
  }

  /** The write flag never hides or fakes a state. */
  lemma MaskDropsFlag(code: bv8, write: bool)
    requires code == LHD_IDLE || code == LHD_WORKING || IsCompletion(code)
    ensures (code | Flag(write)) & LHD_STATEMASK == code
  {}

  // ---- Which requests are let through ----------------------------------

  function Div(x: int, d: int): int
    requires d > 0
  {
    if x >= 0 then x / d else -((-x) / d)
  }

  /** A call of lhd_io; data is what a write is to put into each sector. */
  datatype Call = Call(offset: int, resid: nat, write: bool, data: seq<nat>) {
    predicate Valid() {
      -0x8000_0000 <= offset < 0x8000_0000 && resid < 0x1_0000_0000 && |data| == resid / SECTSIZE
    }

    function Len(): nat {
      resid / SECTSIZE
    }

    /** The checks at the head of lhd_io, in its own 32-bit arithmetic. */
    predicate Accepted(nblocks: nat) {
      && offset % SECTSIZE == 0 && resid % SECTSIZE == 0
      && Wrap32(Wrap32(Div(offset, SECTSIZE)) + Len()) <= nblocks
    }

    /** The sum in the check is too large for its 32 bits. */
    predicate Wraps() {
      Wrap32(Div(offset, SECTSIZE)) + Len() >= 0x1_0000_0000
    }

    /** The sector number that the loop writes to the device in round i. */
    function Sector(i: nat): nat {
      Wrap32(Wrap32(Div(offset, SECTSIZE)) + i)
    }
  }

  /**
   Every sector of an accepted call lies on the disk exactly when the sum in
   the check did not wrap around. If it did, sector 2^32 - 1 is among them.
   */
  lemma SectorsOnDisk(c: Call, nblocks: nat)
    requires c.Valid() && nblocks < 0x1_0000_0000 && c.Accepted(nblocks)
    ensures !c.Wraps() <==> forall i: nat {:trigger c.Sector(i)} | i < c.Len() :: c.Sector(i) < nblocks
  {
    if c.Wraps() {
      var i := 0xffff_ffff - Wrap32(Div(c.offset, SECTSIZE));
      assert i < c.Len() && c.Sector(i) == 0xffff_ffff;
    }
  }

  /**
   On a disk below 0xffc00000 sectors, it wraps exactly from a negative offset,
   and then the first sector is off the disk already.
   */
  lemma WrapMeansNegative(c: Call, nblocks: nat)
    requires c.Valid() && nblocks < 0xffc0_0000 && c.Accepted(nblocks)
    ensures c.Wraps() <==> c.offset < 0
    ensures c.Wraps() ==> c.Sector(0) >= nblocks
    ensures c.offset >= 0 ==>
              forall i: nat {:trigger c.Sector(i)} | i < c.Len() :: c.Sector(i) == c.offset / SECTSIZE + i
  {
    if c.offset < 0 {
      var k := (-c.offset) / SECTSIZE;
      assert 0 < k <= 0x40_0000 && Div(c.offset, SECTSIZE) == -k && Wrap32(-k) == 0x1_0000_0000 - k;
    }
  }

  // ---- The handshake ---------------------------------------------------

  /** One round of a call's loop. */
  datatype Round = Round(call: Call, i: nat) {
    function Sector(): nat {
      call.Sector(i)
    }
  }

  /** What is known of a round that is reached: its call was let in, and the rounds before it went well. */
  ghost predicate RoundOk(r: Round, nblocks: nat) {
    && r.call.Valid() && r.call.Accepted(nblocks) && r.i < r.call.Len()
    && forall j: nat {:trigger r.call.Sector(j)} | j < r.i :: r.call.Sector(j) < nblocks
  }

  /** Where a thread is in the loop body of lhd_io. */
  datatype Phase =
    | AtClear(r: Round)               // before or in P(lh_clear)
    | Cleared(r: Round)               // past it
    | AtDone(r: Round)                // operation started; before or in P(lh_done)
    | Done(r: Round, result: Errno)   // past it, result fetched

  /**
   Semaphore counts, lh_result, the device's registers, buffer and sectors, and
   the phase of each thread inside lhd_io.
   */
  datatype State = State(clear: nat, done: nat, result: Errno, sect: nat, stat: bv8, buf: nat, disk: seq<nat>,
                         phase: map<nat, Phase>)

  predicate Busy(ph: Phase) {
    !ph.AtClear?
  }

  /** The device is idle, working, or finished and not yet heard. */
  predicate Working(stat: bv8) {
    stat & LHD_STATEMASK == LHD_WORKING
  }

  predicate Complete(stat: bv8) {
    IsCompletion(stat & LHD_STATEMASK)
  }

  /** A round ended with this result: data written is on the disk, data read is in the buffer. */
  predicate Served(s: State, r: Round, result: Errno)
    requires r.i < |r.call.data|
  {
    result == OK ==>
      r.Sector() < |s.disk|
      && (if r.call.write then s.disk[r.Sector()] == r.call.data[r.i] else s.buf == s.disk[r.Sector()])
  }

  /** Exactly one thing is true of a started round: the device works on it, has finished it, or lh_done says so. */
  ghost predicate Outstanding(s: State, r: Round)
    requires r.i < |r.call.data|
  {
    && (Working(s.stat) ==> s.done == 0 && s.sect == r.Sector() && (r.call.write ==> s.buf == r.call.data[r.i]))
    && (Working(s.stat) ==> s.stat == LHD_WORKING | Flag(r.call.write))
    && (Complete(s.stat) ==> s.done == 0 && Served(s, r, CodeToErrno(s.stat)))
    && (s.stat == LHD_IDLE ==> s.done == 1 && Served(s, r, s.result))
    && (Working(s.stat) || Complete(s.stat) || s.stat == LHD_IDLE)
  }

  ghost predicate PhaseOk(s: State, t: nat, holder: int) {
    t in s.phase ==>
      var ph := s.phase[t];
      && RoundOk(ph.r, |s.disk|)
      && (Busy(ph) <==> t == holder)
      && (ph.Cleared? ==> s.stat == LHD_IDLE && s.done == 0)
      && (ph.AtDone? ==> Outstanding(s, ph.r))
      && (ph.Done? ==> s.stat == LHD_IDLE && s.done == 0 && Served(s, ph.r, ph.result))
  }

  /** At most one thread is past P(lh_clear), and everything in the device belongs to it. */
  ghost predicate Good(s: State, holder: int) {
    && holder >= NONE && s.clear == (if holder == NONE then 1 else 0) && |s.disk| < 0x1_0000_0000
    && (holder != NONE ==> holder in s.phase)
    && (forall t: nat {:trigger PhaseOk(s, t, holder)} :: PhaseOk(s, t, holder))
    && (holder == NONE ==> s.stat == LHD_IDLE && s.done == 0)
  }

  lemma EnterGood(s: State, holder: int, t: nat, r: Round)
    requires Good(s, holder) && t !in s.phase && RoundOk(r, |s.disk|)
    ensures Good(s.(phase := s.phase[t := AtClear(r)]), holder)
  {
    var s' := s.(phase := s.phase[t := AtClear(r)]);
    forall u: nat
      ensures PhaseOk(s', u, holder)
    {
      assert PhaseOk(s, u, holder);
    }
  }

  /** The rounds started so far: each was reached in order, from the first of its call. */
  ghost predicate StartedOk(started: set<Round>, nblocks: nat) {
    forall r {:trigger r in started} | r in started :: RoundOk(r, nblocks) && Round(r.call, 0) in started
  }

  class Driver {
    var s: State
    ghost var holder: int
    ghost var started: set<Round>   // rounds whose sector was given to the device
    ghost var finished: set<Call>   // calls that returned 0

    ghost predicate Valid()
      reads this
    {
      && Good(s, holder) && StartedOk(started, |s.disk|)
      && (forall t {:trigger s.phase[t]} |
            t in s.phase && (s.phase[t].r.i > 0 || s.phase[t].AtDone? || s.phase[t].Done?) ::
            Round(s.phase[t].r.call, 0) in started)
      && (forall c {:trigger c in finished} | c in finished :: c.Valid() && c.Accepted(|s.disk|) && !c.Wraps())
    }

    /** config_lhd. */
    constructor (disk: seq<nat>)
      requires |disk| < 0x1_0000_0000
      ensures Valid() && s == State(1, 0, OK, 0, LHD_IDLE, 0, disk, map[]) && started == {} && finished == {}
    {
      s := State(1, 0, OK, 0, LHD_IDLE, 0, disk, map[]);
      holder := NONE;
      started, finished := {}, {};
    }

    /** lhd_io up to its loop: the checks, and the first round if there is one. */
    method Enter(t: nat, c: Call) returns (ended: bool, result: Errno)
      requires Valid() && t !in s.phase && c.Valid()
      modifies this
      ensures Valid() && started == old(started)
      ensures !c.Accepted(|s.disk|) ==> ended && result == EINVAL && s == old(s) && finished == old(finished)
      ensures c.Accepted(|s.disk|) && c.Len() == 0 ==>
                ended && result == OK && s == old(s) && finished == old(finished) + {c}
      ensures c.Accepted(|s.disk|) && c.Len() > 0 ==>
                !ended && s == old(s).(phase := old(s).phase[t := AtClear(Round(c, 0))]) && finished == old(finished)
    {
      if !c.Accepted(|s.disk|) {
        return true, EINVAL;
      }
      if c.Len() == 0 {
        SectorsOnDisk(c, |s.disk|);
        finished := finished + {c};
        return true, OK;
      }
      EnterGood(s, holder, t, Round(c, 0));
      s := s.(phase := s.phase[t := AtClear(Round(c, 0))]);
      return false, OK;
    }

    /** P(lh_clear) succeeds. */
    method TakeClear(t: nat)
      requires Valid() && t in s.phase && s.phase[t].AtClear? && s.clear > 0
      modifies this
      ensures Valid() && started == old(started) && finished == old(finished)
      ensures s == old(s).(clear := old(s).clear - 1, phase := old(s).phase[t := Cleared(old(s).phase[t].r)])
    {
      s := s.(clear := s.clear - 1, phase := s.phase[t := Cleared(s.phase[t].r)]);
      holder := t;
      forall u: nat
        ensures PhaseOk(s, u, holder)
      {
        assert PhaseOk(old(s), u, old(holder));
      }
    }

    /** Copying the data to the card fails: V(lh_clear), and the call returns the error. */
    method GiveUp(t: nat) returns (result: Errno)
      requires Valid() && t in s.phase && s.phase[t].Cleared? && s.phase[t].r.call.write
      modifies this
      ensures Valid() && started == old(started) && finished == old(finished) && result == EFAULT
      ensures s == old(s).(clear := old(s).clear + 1, phase := old(s).phase - {t})
    {
      assert PhaseOk(s, t, holder);
      s := s.(clear := s.clear + 1, phase := s.phase - {t});
      holder := NONE;
      forall u: nat
        ensures PhaseOk(s, u, holder)
      {
        assert PhaseOk(old(s), u, old(holder));
      }
      return EFAULT;
    }

    /** Data to the card, sector and status registers written: the device starts. It must have been idle. */
    method Start(t: nat)
      requires Valid() && t in s.phase && s.phase[t].Cleared?
      modifies this
      ensures Valid() && finished == old(finished) && started == old(started) + {old(s).phase[t].r}
      ensures old(s).stat == LHD_IDLE && Working(s.stat) && s.sect == old(s).phase[t].r.Sector()
      ensures s == old(s).(buf := s.buf, sect := s.sect, stat := s.stat,
                           phase := old(s).phase[t := AtDone(old(s).phase[t].r)])
    {
      assert PhaseOk(s, t, holder);
      var r := s.phase[t].r;
      if r.call.write {
        s := s.(buf := r.call.data[r.i]);
      }
      MaskDropsFlag(LHD_WORKING, r.call.write);
      s := s.(sect := r.Sector(), stat := LHD_WORKING | Flag(r.call.write), phase := s.phase[t := AtDone(r)]);
      started := started + {r};
      assert r.i == 0 ==> Round(r.call, 0) == r;
      forall u: nat
        ensures PhaseOk(s, u, holder)
      {
        assert PhaseOk(old(s), u, holder);
      }
    }

    /**
     The device finishes with some result, with success only for a sector it
     has; it has then moved the data between its buffer and the disk.
     */
    method Finish(code: bv8, garbage: nat)
      requires Valid() && Working(s.stat) && IsCompletion(code) && (code == LHD_OK ==> s.sect < |s.disk|)
      modifies this
      ensures Valid() && started == old(started) && finished == old(finished)
      ensures s == old(s).(stat := s.stat, buf := s.buf, disk := s.disk) && s.stat & LHD_STATEMASK == code
      ensures s.disk == old(s).disk || (s.sect < |old(s).disk| && s.disk == old(s).disk[s.sect := old(s).buf])
    {
      ghost var t := holder;
      assert t != NONE;
      assert PhaseOk(s, t, holder);
      ghost var r := s.phase[t].r;
      var write := s.stat & LHD_ISWRITE != 0;
      assert write == r.call.write by {
        WriteFlag(r.call.write);
      }
      if code == LHD_OK {
        if write {
          s := s.(disk := s.disk[s.sect := s.buf]);
        } else {
          s := s.(buf := s.disk[s.sect]);
        }
      } else if !write {
        s := s.(buf := garbage);
      }
      MaskDropsFlag(code, write);
      s := s.(stat := code | Flag(write));
      Finished(s.stat, code);
      forall u: nat
        ensures PhaseOk(s, u, holder)
      {
        assert PhaseOk(old(s), u, holder);
      }
    }

    /** lhd_irq: a completion is recorded once, and anything else is ignored. */
    method Irq()
      requires Valid()
      modifies this
      ensures Valid() && started == old(started) && finished == old(finished)
      ensures Complete(old(s).stat) ==> s == old(s).(stat := LHD_IDLE, result := CodeToErrno(old(s).stat), done := 1)
      ensures !Complete(old(s).stat) ==> s == old(s)
    {
      var val := s.stat;
      var state := val & LHD_STATEMASK;
      if state == LHD_OK || state == LHD_INVSECT || state == LHD_MEDIA {
        assert holder != NONE by {
          Idle();
        }
        assert PhaseOk(s, holder, holder) by {
          Idle();
        }
        NotBoth(val);
        s := s.(stat := LHD_IDLE);
        s := s.(result := CodeToErrno(val), done := s.done + 1);
        Idle();
        forall u: nat
          ensures PhaseOk(s, u, holder)
        {
          assert PhaseOk(old(s), u, holder);
        }
      }
    }

    /** P(lh_done) succeeds, and the result is read: it is that of the thread's own round. */
    method TakeDone(t: nat)
      requires Valid() && t in s.phase && s.phase[t].AtDone? && s.done > 0
      modifies this
      ensures Valid() && started == old(started) && finished == old(finished)
      ensures s == old(s).(done := 0, phase := old(s).phase[t := Done(old(s).phase[t].r, old(s).result)])
      ensures old(s).phase[t].r.i < |old(s).phase[t].r.call.data| && Served(s, old(s).phase[t].r, old(s).result)
    {
      assert PhaseOk(s, t, holder);
      s := s.(done := s.done - 1, phase := s.phase[t := Done(s.phase[t].r, s.result)]);
      forall u: nat
        ensures PhaseOk(s, u, holder)
      {
        assert PhaseOk(old(s), u, holder);
      }
    }

    /**
     The end of a round: after a successful read the data is copied out, which
     may fail; V(lh_clear); then the next round, or the end of the call. A call
     that ends well had all its sectors on the disk.
     */
    method Leave(t: nat, moved: bool) returns (ended: bool, result: Errno, data: nat)
      requires Valid() && t in s.phase && s.phase[t].Done?
      modifies this
      ensures Valid() && started == old(started)
      ensures var r := old(s).phase[t].r;
              && result == (if old(s).phase[t].result == OK && !r.call.write && !moved then EFAULT
                            else old(s).phase[t].result)
              && (ended <==> result != OK || r.i + 1 == r.call.Len())
              && s == old(s).(clear := 1,
                              phase := if ended then old(s).phase - {t}
                                       else old(s).phase[t := AtClear(Round(r.call, r.i + 1))])
              && finished == (if ended && result == OK then old(finished) + {r.call} else old(finished))
              && (result == OK ==> r.i < |r.call.data| && r.Sector() < |s.disk|
                                   && s.disk[r.Sector()] == if r.call.write then r.call.data[r.i] else data)
    {
      assert PhaseOk(s, t, holder);
      var r := s.phase[t].r;
      result, data := s.phase[t].result, s.buf;
      if result == OK && !r.call.write && !moved {
        result := EFAULT;
      }
      ended := result != OK || r.i + 1 == r.call.Len();
      if ended && result == OK {
        SectorsOnDisk(r.call, |s.disk|);
        finished := finished + {r.call};
      }
      s := s.(clear := s.clear + 1,
              phase := if ended then s.phase - {t} else s.phase[t := AtClear(Round(r.call, r.i + 1))]);
      holder := NONE;
      forall u: nat
        ensures PhaseOk(s, u, holder)
      {
        assert PhaseOk(old(s), u, old(holder));
      }
    }

    /**
     Nobody hangs: while a thread is in lhd_io, some thread can go on, or the
     device is at work, or its interrupt is due.
     */
    lemma NeverStuck(t: nat) returns (e: Event)
      requires Valid() && t in s.phase
      ensures Enabled(s, e) && !e.EvEnter? && (e.EvIrq? ==> Complete(s.stat))
    {
      assert PhaseOk(s, t, holder);
      if holder == NONE {
        e := EvTakeClear(t);
      } else {
        assert PhaseOk(s, holder, holder);
        match s.phase[holder]
        case Cleared(_) => e := EvStart(holder);
        case Done(_, _) => e := EvLeave(holder, true);
        case AtDone(_) =>
          e := if Working(s.stat) then EvFinish(if s.sect < |s.disk| then LHD_OK else LHD_INVSECT, 0)
               else if Complete(s.stat) then EvIrq else EvTakeDone(holder);
      }
    }

    /** One request is outstanding at most, and the semaphores never count past 1. */
    lemma OneAtATime(t: nat, u: nat)
      requires Valid()
      ensures t in s.phase && u in s.phase && Busy(s.phase[t]) && Busy(s.phase[u]) ==> t == u
      ensures s.done <= 1 && s.clear <= 1
    {
      assert PhaseOk(s, t, holder) && PhaseOk(s, u, holder);
      if holder != NONE {
        assert PhaseOk(s, holder, holder);
        if s.phase[holder].AtDone? {
          NotBoth(s.stat);
        }
      }
    }

    /**
     In any run: every sector given to the device for a call is on the disk if
     the call's sum did not wrap around; and only if, on any disk below
     0xffc00000 sectors, where a call that wraps starts off the disk.
     */
    lemma StartedOnDisk(c: Call)
      requires Valid() && exists i :: Round(c, i) in started
      ensures !c.Wraps() ==> forall i {:trigger Round(c, i)} | Round(c, i) in started :: c.Sector(i) < |s.disk|
      ensures |s.disk| < 0xffc0_0000 ==>
                (!c.Wraps() <==> forall i {:trigger Round(c, i)} | Round(c, i) in started :: c.Sector(i) < |s.disk|)
    {
      var i :| Round(c, i) in started;
      assert Round(c, 0) in started;
      SectorsOnDisk(c, |s.disk|);
      if |s.disk| < 0xffc0_0000 {
        WrapMeansNegative(c, |s.disk|);
      }
    }

    /** In any run and on any disk: a call that returned 0 has not wrapped, and all its sectors are on the disk. */
    lemma FinishedOnDisk(c: Call, i: nat)
      requires Valid() && c in finished && i < c.Len()
      ensures !c.Wraps() && c.Sector(i) < |s.disk|
    {
      SectorsOnDisk(c, |s.disk|);
    }
  }

  /**
   The call that shows it: one sector at offset -512 passes the check, and the
   device is given the last sector number there is.
   */
  method NegativeOffset(disk: seq<nat>) returns (d: Driver)
    requires |disk| < 0x1_0000_0000
    ensures fresh(d) && d.Valid() && Working(d.s.stat) && d.s.sect == 0xffff_ffff >= |d.s.disk|
  {
    d := new Driver(disk);
    var c := Call(-512, 512, false, [0]);
    var ended, result := d.Enter(0, c);
    d.TakeClear(0);
    d.Start(0);
  }

  // ---- Runs ------------------------------------------------------------

  datatype Event =
    | EvEnter(t: nat, c: Call) | EvTakeClear(t: nat) | EvGiveUp(t: nat) | EvStart(t: nat)
    | EvFinish(code: bv8, garbage: nat)
    | EvIrq | EvTakeDone(t: nat) | EvLeave(t: nat, moved: bool)

  predicate Enabled(s: State, e: Event) {
    match e
    case EvEnter(t, c) => t !in s.phase && c.Valid()
    case EvTakeClear(t) => t in s.phase && s.phase[t].AtClear? && s.clear > 0
    case EvGiveUp(t) => t in s.phase && s.phase[t].Cleared? && s.phase[t].r.call.write
    case EvStart(t) => t in s.phase && s.phase[t].Cleared?
    case EvFinish(code, _) => Working(s.stat) && IsCompletion(code) && (code == LHD_OK ==> s.sect < |s.disk|)
    case EvIrq => true
    case EvTakeDone(t) => t in s.phase && s.phase[t].AtDone? && s.done > 0
    case EvLeave(t, _) => t in s.phase && s.phase[t].Done?
  }

  /** Any interleaving of threads, device and interrupts, spurious interrupts included. */
  method Execute(d: Driver, events: seq<Event>)
    requires d.Valid()
    modifies d
    ensures d.Valid()
  {
    for n := 0 to |events|
      invariant d.Valid()
    {
      if Enabled(d.s, events[n]) {
        match events[n]
        case EvEnter(t, c) => var ended, result := d.Enter(t, c);
        case EvTakeClear(t) => d.TakeClear(t);
        case EvGiveUp(t) => var result := d.GiveUp(t);
        case EvStart(t) => d.Start(t);
        case EvFinish(code, garbage) => d.Finish(code, garbage);
        case EvIrq => d.Irq();
        case EvTakeDone(t) => d.TakeDone(t);
        case EvLeave(t, moved) => var ended, result, data := d.Leave(t, moved);
      }
    }
  }

  lemma WriteFlag(write: bool)
    ensures ((LHD_WORKING | Flag(write)) & LHD_ISWRITE != 0) == write
  {}

  lemma Finished(stat: bv8, code: bv8)
    requires stat & LHD_STATEMASK == code && IsCompletion(code)
    ensures Complete(stat) && !Working(stat) && stat != LHD_IDLE && (CodeToErrno(stat) == OK <==> code == LHD_OK)
  {}

  lemma NotBoth(stat: bv8)
    ensures !(Working(stat) && Complete(stat)) && (stat == LHD_IDLE ==> !Working(stat) && !Complete(stat))
  {}

  lemma Idle()
    ensures !Working(LHD_IDLE) && !Complete(LHD_IDLE)
  {}
}
