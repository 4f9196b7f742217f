/**
 The traffic intersection (kern/asst1/stoplight.c): any number of cars, each
 running one of twelve lock programs, under any scheduling. Locks behave as in
 thread/synch.c: a car that finds a lock taken sleeps on it, and a release
 wakes everyone asleep on that lock.
 */
module Stoplight {
  datatype Lock = Car1 | Car2 | N | E | S | W | NW | SW | SE | NE
  datatype Op = Acq(lock: Lock) | Rel(lock: Lock)

  // ---- The lock programs, as written -----------------------------------

  const NORTH := 0
  const EAST := 1
  const SOUTH := 2
  const WEST := 3

  function GoStraight(dir: nat): seq<Op> {
    if dir == SOUTH then [Acq(Car1), Acq(S), Acq(SE), Rel(S), Acq(NE), Rel(SE), Rel(NE), Rel(Car1)]
    else if dir == WEST then [Acq(Car2), Acq(W), Acq(SW), Rel(W), Acq(SE), Rel(SW), Rel(SE), Rel(Car2)]
    else if dir == NORTH then [Acq(Car1), Acq(N), Acq(NW), Rel(N), Acq(SW), Rel(NW), Rel(SW), Rel(Car1)]
    else if dir == EAST then [Acq(Car2), Acq(E), Acq(NE), Rel(E), Acq(NW), Rel(NE), Rel(NW), Rel(Car2)]
    else []
  }

  function TurnLeft(dir: nat): seq<Op> {
    if dir == NORTH then [Acq(Car1), Acq(N), Acq(NW), Rel(N), Acq(SW), Rel(NW), Acq(SE), Rel(SW), Rel(SE), Rel(Car1)]
    else if dir == EAST
      then [Acq(Car2), Acq(E), Acq(NE), Rel(E), Acq(NW), Rel(NE), Acq(SW), Rel(NW), Rel(SW), Rel(Car2)]
    else if dir == SOUTH
      then [Acq(Car1), Acq(S), Acq(SE), Rel(S), Acq(NE), Rel(SE), Acq(NW), Rel(NE), Rel(NW), Rel(Car1)]
    else if dir == WEST
      then [Acq(Car2), Acq(W), Acq(SW), Rel(W), Acq(SE), Rel(SW), Acq(NE), Rel(SE), Rel(NE), Rel(Car2)]
    else []
  }

  function TurnRight(dir: nat): seq<Op> {
    if dir == SOUTH then [Acq(Car1), Acq(S), Acq(SE), Rel(S), Rel(SE), Rel(Car1)]
    else if dir == WEST then [Acq(Car2), Acq(W), Acq(SW), Rel(W), Rel(SW), Rel(Car2)]
    else if dir == NORTH then [Acq(Car1), Acq(N), Acq(NW), Rel(N), Rel(NW), Rel(Car1)]
    else if dir == EAST then [Acq(Car2), Acq(E), Acq(NE), Rel(E), Rel(NE), Rel(Car2)]
    else []
  }

  /** approachintersection: turn 0 is straight, 1 left, anything else right. */
  function Program(dir: nat, turn: nat): seq<Op> {
    if turn == 0 then GoStraight(dir) else if turn == 1 then TurnLeft(dir) else TurnRight(dir)
  }

  // ---- What they have in common ----------------------------------------

  /** The lock that lets only two cars in: one for north and south, one for east and west. */
  function Limiter(dir: nat): Lock {
    if dir == NORTH || dir == SOUTH then Car1 else Car2
  }

  function Entry(dir: nat): Lock {
    if dir == NORTH then N else if dir == EAST then E else if dir == SOUTH then S else W
  }

  /** The regions in driving order: everyone goes round the same way. */
  function RegionNo(r: nat): Lock {
    if r == 0 then NW else if r == 1 then SW else if r == 2 then SE else NE
  }

  /** Number of the k-th region on the way from dir. */
  function Along(dir: nat, k: nat): nat {
    var r := (if dir == NORTH then 0 else if dir == EAST then 3 else if dir == SOUTH then 2 else 1) + k;
    if r >= 4 then r - 4 else r
  }

  function Regions(turn: nat): nat {
    if turn == 0 then 2 else if turn == 1 then 3 else 1
  }

  function Length(turn: nat): nat {
    4 + 2 * Regions(turn)
  }

  /** Operation pc of the program, said uniformly. */
  function OpAt(dir: nat, turn: nat, pc: nat): Op
    requires pc < Length(turn)
  {
    if pc == 0 then Acq(Limiter(dir))
    else if pc == 1 then Acq(Entry(dir))
    else if pc == 3 then Rel(Entry(dir))
    else if pc == Length(turn) - 1 then Rel(Limiter(dir))
    else if pc == Length(turn) - 2 then Rel(RegionNo(Along(dir, Regions(turn) - 1)))
    else if pc % 2 == 0 then Acq(RegionNo(Along(dir, pc / 2 - 1)))
    else Rel(RegionNo(Along(dir, (pc - 5) / 2)))
  }

  lemma StraightIs(dir: nat, pc: nat)
    requires dir < 4 && pc < Length(0)
    ensures |GoStraight(dir)| == Length(0) && GoStraight(dir)[pc] == OpAt(dir, 0, pc)
  {}

  lemma LeftIs(dir: nat, pc: nat)
    requires dir < 4 && pc < Length(1)
    ensures |TurnLeft(dir)| == Length(1) && TurnLeft(dir)[pc] == OpAt(dir, 1, pc)
  {}

  lemma RightIs(dir: nat, pc: nat, turn: nat)
    requires dir < 4 && pc < Length(2) && turn > 1
    ensures |TurnRight(dir)| == Length(2) && TurnRight(dir)[pc] == OpAt(dir, turn, pc)
  {}

  lemma ProgramIs(dir: nat, turn: nat, pc: nat)
    requires dir < 4 && pc < Length(turn)
    ensures |Program(dir, turn)| == Length(turn) && Program(dir, turn)[pc] == OpAt(dir, turn, pc)
  {
    if turn == 0 {
      StraightIs(dir, pc);
    } else if turn == 1 {
      LeftIs(dir, pc);
    } else {
      RightIs(dir, pc, turn);
    }
  }

  // ---- The world -------------------------------------------------------

  datatype Car = Car(dir: nat, turn: nat, pc: nat, asleep: bool)

  /** The cars, and the owner of each lock that is held. */
  datatype World = World(cars: seq<Car>, owner: map<Lock, nat>)

  /** The car is in the k-th region of its way. */
  predicate InRegion(c: Car, k: nat) {
    k < Regions(c.turn) && 3 + 2 * k <= c.pc <= 5 + 2 * k && c.pc <= Length(c.turn) - 2
  }

  /** Which locks a car holds, by how far it has come. */
  predicate Holds(c: Car, l: Lock) {
    || (l == Limiter(c.dir) && 1 <= c.pc < Length(c.turn))
    || (l == Entry(c.dir) && 2 <= c.pc <= 3)
    || (InRegion(c, 0) && l == RegionNo(Along(c.dir, 0)))
    || (InRegion(c, 1) && l == RegionNo(Along(c.dir, 1)))
    || (InRegion(c, 2) && l == RegionNo(Along(c.dir, 2)))
  }

  /**
   Each operation is in order: one acquires what one does not hold, releases what
   one holds, and that is all that changes.
   */
  lemma OpEffect(c: Car, l: Lock)
    requires c.dir < 4 && c.pc < Length(c.turn)
    ensures var (op, c') := (OpAt(c.dir, c.turn, c.pc), c.(pc := c.pc + 1, asleep := false));
            && (op.Acq? ==> !Holds(c, op.lock) && (Holds(c', l) <==> l == op.lock || Holds(c, l)))
            && (op.Rel? ==> Holds(c, op.lock) && (Holds(c', l) <==> l != op.lock && Holds(c, l)))
  {
    assert c.pc == 0 || c.pc == 1 || c.pc == 2 || c.pc == 3 || c.pc == 4 || c.pc == 5 || c.pc == 6 || c.pc == 7
           || c.pc == 8 || c.pc == 9;
  }

  predicate Finished(c: Car) {
    c.pc >= Length(c.turn)
  }

  /** The car waits for l: its next operation acquires it. */
  predicate Wants(c: Car, l: Lock) {
    c.pc < Length(c.turn) && OpAt(c.dir, c.turn, c.pc) == Acq(l)
  }

  predicate OwnerOk(w: World, i: nat, l: Lock)
    requires i < |w.cars|
  {
    (l in w.owner && w.owner[l] == i) <==> Holds(w.cars[i], l)
  }

  /** A car asleep waits for a lock that someone holds. */
  predicate SleepOk(w: World, i: nat)
    requires i < |w.cars|
  {
    var c := w.cars[i];
    && c.dir < 4 && c.pc <= Length(c.turn)
    && (c.asleep ==>
          c.pc < Length(c.turn) && OpAt(c.dir, c.turn, c.pc).Acq? && OpAt(c.dir, c.turn, c.pc).lock in w.owner)
  }

  ghost predicate Good(w: World) {
    && (forall i: nat {:trigger SleepOk(w, i)} | i < |w.cars| :: SleepOk(w, i))
    && (forall i: nat, l: Lock {:trigger OwnerOk(w, i, l)} | i < |w.cars| :: OwnerOk(w, i, l))
    && (forall l: Lock {:trigger l in w.owner} | l in w.owner :: w.owner[l] < |w.cars|)
  }

  predicate CanMove(w: World, i: nat) {
    i < |w.cars| && !Finished(w.cars[i]) && !w.cars[i].asleep
  }

  /** thread_wakeup on a lock. */
  function Woken(cars: seq<Car>, l: Lock): (r: seq<Car>)
    ensures |r| == |cars|
    ensures forall i | 0 <= i < |cars| ::
              r[i] == if cars[i].asleep && Wants(cars[i], l) then cars[i].(asleep := false) else cars[i]
  {
    if cars == [] then []
    else
      var c := cars[|cars| - 1];
      Woken(cars[..|cars| - 1], l) + [if c.asleep && Wants(c, l) then c.(asleep := false) else c]
  }

  function Advanced(c: Car): Car {
    c.(pc := c.pc + 1, asleep := false)
  }

  function NextOp(c: Car): (op: Op)
    requires c.dir < 4 && c.pc < Length(c.turn)
    ensures op == OpAt(c.dir, c.turn, c.pc)
  {
    ProgramIs(c.dir, c.turn, c.pc);
    Program(c.dir, c.turn)[c.pc]
  }

  /** The next operation of car i; a release must be by the owner. */
  function Step(w: World, i: nat): World
    requires CanMove(w, i) && w.cars[i].dir < 4
  {
    var c := w.cars[i];
    match NextOp(c)
    case Acq(l) =>
      if l in w.owner then World(w.cars[i := c.(asleep := true)], w.owner)
      else World(w.cars[i := Advanced(c)], w.owner[l := i])
    case Rel(l) => World(Woken(w.cars[i := Advanced(c)], l), w.owner - {l})
  }

  // ---- Safety ----------------------------------------------------------

  lemma StepAcquire(w: World, i: nat)
    requires Good(w) && CanMove(w, i) && w.cars[i].dir < 4 && OpAt(w.cars[i].dir, w.cars[i].turn, w.cars[i].pc).Acq?
    ensures Good(Step(w, i))
  {
    var (w', c) := (Step(w, i), w.cars[i]);
    forall j: nat, l: Lock | j < |w'.cars|
      ensures OwnerOk(w', j, l)
    {
      assert OwnerOk(w, j, l) && OwnerOk(w, i, l) && SleepOk(w, i);
      OpEffect(c, l);
    }
    forall j: nat | j < |w'.cars|
      ensures SleepOk(w', j)
    {
      assert SleepOk(w, j);
    }
  }

  lemma StepRelease(w: World, i: nat)
    requires Good(w) && CanMove(w, i) && w.cars[i].dir < 4 && OpAt(w.cars[i].dir, w.cars[i].turn, w.cars[i].pc).Rel?
    ensures Good(Step(w, i))
  {
    var (w', c) := (Step(w, i), w.cars[i]);
    var rel := OpAt(c.dir, c.turn, c.pc).lock;
    forall j: nat, l: Lock | j < |w'.cars|
      ensures OwnerOk(w', j, l)
    {
      assert OwnerOk(w, j, l) && OwnerOk(w, i, rel);
      OpEffect(c, l);
      assert Holds(w'.cars[j], l) == Holds(if j == i then Advanced(c) else w.cars[j], l);
    }
    forall j: nat | j < |w'.cars|
      ensures SleepOk(w', j)
    {
      assert SleepOk(w, j) && SleepOk(w, i);
    }
  }

  /** Every move keeps the locks and the cars' records in step, and only an owner releases. */
  lemma StepGood(w: World, i: nat)
    requires Good(w) && CanMove(w, i)
    ensures w.cars[i].dir < 4 && Good(Step(w, i))
    ensures NextOp(w.cars[i]).Rel? ==> NextOp(w.cars[i]).lock in w.owner && w.owner[NextOp(w.cars[i]).lock] == i
  {
    assert SleepOk(w, i);
    var op := NextOp(w.cars[i]);
    if op.Acq? {
      StepAcquire(w, i);
    } else {
      OpEffect(w.cars[i], op.lock);
      assert OwnerOk(w, i, op.lock);
      StepRelease(w, i);
    }
  }

  ghost predicate OnRoute(cars: seq<Car>, routes: seq<(nat, nat)>) {
    |cars| == |routes| && forall i: nat | i < |routes| :: cars[i].dir == routes[i].0 && cars[i].turn == routes[i].1
  }

  lemma StepOnRoute(w: World, i: nat, routes: seq<(nat, nat)>)
    requires CanMove(w, i) && w.cars[i].dir < 4 && OnRoute(w.cars, routes)
    ensures OnRoute(Step(w, i).cars, routes)
  {}

  lemma StartGood(w: World, routes: seq<(nat, nat)>)
    requires OnRoute(w.cars, routes) && w.owner == map[]
    requires forall i: nat | i < |routes| :: routes[i].0 < 4 && w.cars[i].pc == 0 && !w.cars[i].asleep
    ensures Good(w)
  {}

  lemma AllFree(w: World)
    requires Good(w) && forall i: nat | i < |w.cars| :: Finished(w.cars[i])
    ensures w.owner == map[]
  {
    forall l: Lock
      ensures l !in w.owner
    {
      if l in w.owner {
        assert OwnerOk(w, w.owner[l], l) && SleepOk(w, w.owner[l]);
        HoldsInside(w.cars[w.owner[l]], l);
      }
    }
  }

  /** A lock has one owner, so a region holds at most one car. */
  lemma RegionExclusive(w: World, i: nat, j: nat, l: Lock)
    requires Good(w) && i < |w.cars| && j < |w.cars| && Holds(w.cars[i], l) && Holds(w.cars[j], l)
    ensures i == j
  {
    assert OwnerOk(w, i, l) && OwnerOk(w, j, l);
  }

  predicate Inside(c: Car) {
    1 <= c.pc < Length(c.turn)
  }

  /** Of three cars inside, two are the same. */
  lemma AtMostTwoInside(w: World, i: nat, j: nat, k: nat)
    requires Good(w) && i < |w.cars| && j < |w.cars| && k < |w.cars|
    requires Inside(w.cars[i]) && Inside(w.cars[j]) && Inside(w.cars[k])
    ensures i == j || j == k || i == k
  {
    var (a, b, c) := (Limiter(w.cars[i].dir), Limiter(w.cars[j].dir), Limiter(w.cars[k].dir));
    assert OwnerOk(w, i, a) && OwnerOk(w, j, b) && OwnerOk(w, k, c);
  }

  // ---- Progress --------------------------------------------------------

  predicate IsRegion(l: Lock) {
    l.NW? || l.SW? || l.SE? || l.NE?
  }

  function NextRegion(l: Lock): Lock {
    match l
    case NW => SW
    case SW => SE
    case SE => NE
    case NE => NW
    case _ => l
  }

  /** A car inside waits for its entry, holding no region, or for the region after the only one it is in. */
  lemma WaitsFor(c: Car, l: Lock, m: Lock)
    requires c.dir < 4 && Inside(c) && Wants(c, l)
    ensures l == Entry(c.dir) || IsRegion(l)
    ensures IsRegion(m) && Holds(c, m) ==> l == NextRegion(m) && IsRegion(l)
  {
    assert c.pc == 1 || c.pc == 2 || c.pc == 4 || c.pc == 6;
  }

  lemma EntryHeldFrom(c: Car, dir: nat)
    requires c.dir < 4 && dir < 4
    ensures Holds(c, Entry(dir)) ==> c.dir == dir
  {}

  lemma HoldsInside(c: Car, l: Lock)
    requires c.dir < 4 && Holds(c, l)
    ensures Inside(c)
  {}

  /** A sleeping car inside waits for a region, and its owner is the other car inside. */
  lemma WaitsForRegion(w: World, j: nat, m: Lock)
    requires Good(w) && j < |w.cars| && Inside(w.cars[j]) && w.cars[j].asleep && Wants(w.cars[j], m)
    ensures m in w.owner && w.owner[m] < |w.cars| && w.owner[m] != j && Inside(w.cars[w.owner[m]]) && IsRegion(m)
    ensures Holds(w.cars[w.owner[m]], m)
  {
    assert SleepOk(w, j) && m in w.owner;
    var k := w.owner[m];
    assert OwnerOk(w, k, m) && SleepOk(w, k) && OwnerOk(w, j, m);
    HoldsInside(w.cars[k], m);
    OpEffect(w.cars[j], m);
    WaitsFor(w.cars[j], m, m);
    EntryHeldFrom(w.cars[k], w.cars[j].dir);
    var limiter := Limiter(w.cars[j].dir);
    assert OwnerOk(w, j, limiter) && OwnerOk(w, k, limiter);
  }

  /** The way round has four regions, so two cars cannot wait for each other. */
  lemma NoDeadlock(w: World, j: nat, m: Lock)
    requires Good(w) && j < |w.cars| && Inside(w.cars[j]) && w.cars[j].asleep && Wants(w.cars[j], m)
    ensures m in w.owner && CanMove(w, w.owner[m])
  {
    WaitsForRegion(w, j, m);
    var k := w.owner[m];
    if w.cars[k].asleep {
      assert SleepOk(w, k) && SleepOk(w, j);
      var n := OpAt(w.cars[k].dir, w.cars[k].turn, w.cars[k].pc).lock;
      WaitsForRegion(w, k, n);
      AtMostTwoInside(w, j, k, w.owner[n]);
      WaitsFor(w.cars[k], n, m);
      WaitsFor(w.cars[j], m, n);
      assert false;
    }
  }

  /** While some car has not finished, some car can move. */
  lemma SomeoneMoves(w: World, u: nat) returns (i: nat)
    requires Good(w) && u < |w.cars| && !Finished(w.cars[u])
    ensures CanMove(w, i)
  {
    i := u;
    if w.cars[u].asleep {
      assert SleepOk(w, u);
      var l := OpAt(w.cars[u].dir, w.cars[u].turn, w.cars[u].pc).lock;
      i := w.owner[l];
      assert OwnerOk(w, i, l) && SleepOk(w, i);
      HoldsInside(w.cars[i], l);
      if w.cars[i].asleep {
        var m := OpAt(w.cars[i].dir, w.cars[i].turn, w.cars[i].pc).lock;
        NoDeadlock(w, i, m);
        i := w.owner[m];
      }
    }
  }

  // ---- Termination -----------------------------------------------------

  function ToGo(c: Car): nat {
    if Finished(c) then 0 else Length(c.turn) - c.pc
  }

  /** Operations still to be done. */
  function Remaining(cars: seq<Car>): nat {
    if cars == [] then 0 else Remaining(cars[..|cars| - 1]) + ToGo(cars[|cars| - 1])
  }

  /** Cars not asleep. */
  function Awake(cars: seq<Car>): (n: nat)
    ensures n <= |cars|
  {
    if cars == [] then 0 else Awake(cars[..|cars| - 1]) + (if cars[|cars| - 1].asleep then 0 else 1)
  }

  lemma {:induction false} UpdateSums(cars: seq<Car>, i: nat, c: Car)
    requires i < |cars|
    ensures Remaining(cars[i := c]) == Remaining(cars) - ToGo(cars[i]) + ToGo(c)
    ensures Awake(cars[i := c]) == Awake(cars) - (if cars[i].asleep then 0 else 1) + (if c.asleep then 0 else 1)
  {
    var init := cars[..|cars| - 1];
    if i == |cars| - 1 {
      assert cars[i := c][..|cars| - 1] == init;
    } else {
      assert cars[i := c][..|cars| - 1] == init[i := c];
      UpdateSums(init, i, c);
    }
  }

  lemma {:induction false} WokenSums(cars: seq<Car>, l: Lock)
    ensures Remaining(Woken(cars, l)) == Remaining(cars)
  {
    if cars != [] {
      WokenSums(cars[..|cars| - 1], l);
      assert Woken(cars, l)[..|cars| - 1] == Woken(cars[..|cars| - 1], l);
    }
  }

  /** Every step does an operation, or puts a car to sleep while doing none. */
  lemma StepProgress(w: World, i: nat)
    requires Good(w) && CanMove(w, i) && w.cars[i].dir < 4
    ensures |Step(w, i).cars| == |w.cars|
    ensures Remaining(Step(w, i).cars) < Remaining(w.cars) ||
            (Remaining(Step(w, i).cars) == Remaining(w.cars) && Awake(Step(w, i).cars) < Awake(w.cars))
  {
    var c := w.cars[i];
    UpdateSums(w.cars, i, c.(asleep := true));
    UpdateSums(w.cars, i, Advanced(c));
    var op := OpAt(c.dir, c.turn, c.pc);
    if op.Rel? {
      WokenSums(w.cars[i := Advanced(c)], op.lock);
    }
  }

  /**
   Any number of cars, any directions and turns, any order of moves: the run
   ends, and it ends with every car through and every lock free.
   */
  method Traffic(routes: seq<(nat, nat)>) returns (w: World)
    requires forall i | 0 <= i < |routes| :: routes[i].0 < 4
    ensures OnRoute(w.cars, routes) && w.owner == map[]
    ensures forall i: nat | i < |routes| :: Finished(w.cars[i])
  {
    w := World(seq(|routes|, i requires 0 <= i < |routes| => Car(routes[i].0, routes[i].1, 0, false)), map[]);
    StartGood(w, routes);
    while exists i: nat :: i < |w.cars| && !Finished(w.cars[i])
      invariant Good(w) && OnRoute(w.cars, routes)
      decreases Remaining(w.cars), Awake(w.cars)
    {
      ghost var u: nat :| u < |w.cars| && !Finished(w.cars[u]);
      ghost var someone := SomeoneMoves(w, u);
      var i: nat :| i < |w.cars| && CanMove(w, i);
      StepGood(w, i);
      StepOnRoute(w, i, routes);
      StepProgress(w, i);
      w := Step(w, i);
    }
    AllFree(w);
  }
}
