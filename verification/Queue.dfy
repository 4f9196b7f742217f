/**
 The growable ring buffer of pointers (kern/lib/queue.c), refined to a
 sequence, and the order in which it hands elements out (the run queue of
 thread/scheduler.c is one).
 */
module Queue {
  import opened Basics

  /** The elements from index r up to index w, around the end of the ring. */
  function Ring<T>(data: seq<T>, r: nat, w: nat): seq<T>
    requires r < |data| && w < |data|
  {
    if r <= w then data[r..w] else data[r..] + data[..w]
  }

  /** The index after i. */
  function After(i: nat, size: nat): nat
    requires i < size
  {
    if i + 1 == size then 0 else i + 1
  }

  lemma AfterMod(i: nat, size: nat)
    requires i < size
    ensures (i + 1) % size == After(i, size)
  {}

  lemma RingPush<T>(data: seq<T>, r: nat, w: nat, x: T)
    requires r < |data| && w < |data| && After(w, |data|) != r
    ensures Ring(data[w := x], r, After(w, |data|)) == Ring(data, r, w) + [x]
  {
    var d := data[w := x];
    if w + 1 < |data| {
      assert d[..w + 1] == data[..w] + [x];
    } else {
      assert d[r..] == data[r..w] + [x];
    }
  }

  lemma RingPop<T>(data: seq<T>, r: nat, w: nat)
    requires r < |data| && w < |data| && r != w
    ensures Ring(data, r, w) == [data[r]] + Ring(data, After(r, |data|), w)
  {
    if r + 1 == |data| {
      assert data[r..] == [data[r]];
    }
  }

  /** One slot always stays empty. */
  lemma RingLength<T>(data: seq<T>, r: nat, w: nat)
    requires r < |data| && w < |data|
    ensures |Ring(data, r, w)| < |data|
    ensures |Ring(data, r, w)| == 0 <==> r == w
    ensures |Ring(data, r, w)| + 1 == |data| <==> After(w, |data|) == r
  {}

  /** The ring q_grow ends up with. */
  function DoubledTo(size: nat, targetsize: nat): (r: nat)
    requires size > 0
    ensures r >= targetsize && r >= size && (targetsize > size ==> r < 2 * targetsize)
    decreases targetsize - size
  {
    if targetsize <= size then size else DoubledTo(2 * size, targetsize)
  }

  /** The doubling loop of q_grow. */
  method Doubled(size: nat, targetsize: nat) returns (nsize: nat)
    requires 0 < size
    ensures nsize == DoubledTo(size, targetsize)
  {
    nsize := size;
    while nsize < targetsize
      invariant 0 < nsize && DoubledTo(nsize, targetsize) == DoubledTo(size, targetsize)
      decreases targetsize - nsize
    {
      nsize := nsize * 2;
      assert nsize > 0;
    }
  }

  lemma MoveOne<T>(c: seq<T>, x: T, rest: seq<T>, all: seq<T>)
    requires c + ([x] + rest) == all
    ensures (c + [x]) + rest == all && |c| < |all|
  {
    assert (c + [x]) + rest == c + ([x] + rest);
  }

  class Queue<T(0)> {
    var size: nat
    var nextwrite: nat
    var nextread: nat
    var data: array<T>

    ghost predicate Valid()
      reads this
    {
      size == data.Length && nextwrite < size && nextread < size
    }

    ghost function Contents(): seq<T>
      requires Valid()
      reads this, data
    {
      Ring(data[..], nextread, nextwrite)
    }

    /** Adding now would need a larger buffer. */
    predicate Full()
      requires Valid()
      reads this
    {
      After(nextwrite, size) == nextread
    }

    constructor Create(size: nat)
      requires size > 0
      ensures Valid() && fresh(data) && this.size == size && Contents() == []
    {
      this.size := size;
      data := new T[size];
      nextread, nextwrite := 0, 0;
    }

    /**
     q_grow. The copying goes through AddTail, which may itself grow the queue;
     it never does here, and that is why the two methods terminate.
     */
    method Grow(targetsize: nat, memory: bool) returns (r: MemStatus)
      requires Valid() && targetsize > size
      modifies this
      ensures Valid() && Contents() == old(Contents())
      ensures r.Success? <==> memory
      ensures r.Success? ==> fresh(data) && size == DoubledTo(old(size), targetsize)
      ensures r.OutOfMemory? ==>
                size == old(size) && data == old(data) && nextread == old(nextread) && nextwrite == old(nextwrite)
      decreases 1
    {
      var olddata, onr, onw, osize := data, nextread, nextwrite, size;
      var nsize := Doubled(size, targetsize);
      if !memory {
        return OutOfMemory;
      }
      var ndata := new T[nsize];
      size, data := nsize, ndata;
      nextread, nextwrite := 0, 0;
      ghost var all := Ring(olddata[..], onr, onw);
      RingLength(olddata[..], onr, onw);
      var i: nat := onr;
      while i != onw
        invariant Valid() && i < osize && data == ndata && size == nsize && data != olddata
        invariant Contents() + Ring(olddata[..], i, onw) == all
        decreases |Ring(olddata[..], i, onw)|
      {
        RingPop(olddata[..], i, onw);
        RingLength(data[..], nextread, nextwrite);
        MoveOne(Contents(), olddata[i], Ring(olddata[..], After(i, osize), onw), all);
        var result := AddTail(olddata[i], memory);
        assert result.Success?;
        AfterMod(i, osize);
        i := (i + 1) % osize;
      }
      return Success;
    }

    /** q_preallocate. */
    method Preallocate(n: nat, memory: bool) returns (r: MemStatus)
      requires Valid()
      modifies this
      ensures Valid() && Contents() == old(Contents())
      ensures r.OutOfMemory? <==> n > old(size) && !memory
      ensures size == if r.Success? then DoubledTo(old(size), n) else old(size)
      ensures size == old(size) ==> data == old(data)
      ensures size != old(size) ==> fresh(data)
    {
      r := Success;
      if n > size {
        r := Grow(n, memory);
      }
    }

    /** q_empty. */
    method IsEmpty() returns (b: bool)
      requires Valid()
      ensures b <==> Contents() == []
    {
      RingLength(data[..], nextread, nextwrite);
      b := nextwrite == nextread;
    }

    /** q_addtail: at the end; more memory is needed exactly when all slots but one are taken. */
    method AddTail(x: T, memory: bool) returns (r: MemStatus)
      requires Valid()
      modifies this, data
      ensures Valid() && (data == old(data) || fresh(data))
      ensures r.OutOfMemory? <==> |old(Contents())| + 1 == old(size) && !memory
      ensures r.Success? ==> Contents() == old(Contents()) + [x]
      ensures r.OutOfMemory? ==> Contents() == old(Contents()) && data == old(data)
      ensures !old(Full()) ==> data == old(data)
      ensures size == if |old(Contents())| + 1 == old(size) && memory then 2 * old(size) else old(size)
      ensures data == old(data) ==> forall i | 0 <= i < data.Length && i != old(nextwrite) :: data[i] == old(data[i])
      decreases if Full() then 2 else 0
    {
      RingLength(data[..], nextread, nextwrite);
      AfterMod(nextwrite, size);
      var nextnext := (nextwrite + 1) % size;
      if nextnext == nextread {
        var result := Grow(size + 1, memory);
        if result.OutOfMemory? {
          return OutOfMemory;
        }
        RingLength(data[..], nextread, nextwrite);
        AfterMod(nextwrite, size);
        nextnext := (nextwrite + 1) % size;
      }
      RingPush(data[..], nextread, nextwrite, x);
      ghost var before := data[..];
      data[nextwrite] := x;
      assert data[..] == before[nextwrite := x];
      nextwrite := nextnext;
      return Success;
    }

    /** q_remhead: from the front; the queue must not be empty. */
    method RemHead() returns (x: T)
      requires Valid() && Contents() != []
      modifies this
      ensures Valid() && data == old(data) && size == old(size) && old(Contents()) == [x] + Contents()
    {
      RingLength(data[..], nextread, nextwrite);
      RingPop(data[..], nextread, nextwrite);
      x := data[nextread];
      AfterMod(nextread, size);
      nextread := (nextread + 1) % size;
    }
  }

  // ---- Room --------------------------------------------------------------

  /** A size the run queue's ring can have: 32 slots to begin with, or twice such a size. */
  predicate RingSize(n: nat) {
    n == 32 || (n > 32 && n % 2 == 0 && RingSize(n / 2))
  }

  lemma RingDoubled(n: nat)
    requires RingSize(n)
    ensures n >= 32 && RingSize(2 * n)
  {}

  lemma {:induction false} RingGrown(size: nat, n: nat)
    requires size > 0 && RingSize(size)
    ensures RingSize(DoubledTo(size, n))
    decreases n - size
  {
    if n > size {
      RingDoubled(size);
      RingGrown(2 * size, n);
    }
  }

  /** One reservation and then a larger one is the larger one. */
  lemma {:induction false} DoubledAgain(size: nat, n: nat, m: nat)
    requires size > 0 && n <= m
    ensures DoubledTo(DoubledTo(size, n), m) == DoubledTo(size, m)
    decreases n - size
  {
    if n > size {
      DoubledAgain(2 * size, n, m);
    }
  }

  lemma {:induction false} TwiceDoubled(size: nat, n: nat)
    requires size > 0
    ensures DoubledTo(2 * size, 2 * n) == 2 * DoubledTo(size, n)
    decreases n - size
  {
    if n > size {
      TwiceDoubled(2 * size, n);
    }
  }

  lemma {:induction false} NoSpare(n: nat)
    requires RingSize(n)
    ensures DoubledTo(32, n) == n
  {
    if n > 32 {
      NoSpare(n / 2);
      TwiceDoubled(32, n / 2);
    }
  }

  /** Reserving n slots leaves one to spare exactly when n is not itself a size of the ring. */
  lemma SpareSlot(n: nat)
    ensures DoubledTo(32, n) > n <==> !RingSize(n)
  {
    RingGrown(32, n);
    if RingSize(n) {
      NoSpare(n);
    }
  }

  /**
   q_preallocate for n threads on the run queue, as scheduler_preallocate
   does, and then n threads without further memory: they all fit exactly
   when n is not itself a size of the ring.
   */
  method ReserveAndFill(n: nat) returns (fits: bool)
    ensures fits <==> !RingSize(n)
  {
    SpareSlot(n);
    var q := new Queue<nat>.Create(32);
    var r := q.Preallocate(n, true);
    fits := true;
    for i := 0 to n
      invariant fresh(q) && fresh(q.data) && q.Valid() && q.size == DoubledTo(32, n) && fits && |q.Contents()| == i
    {
      r := q.AddTail(i, false);
      if r.OutOfMemory? {
        return false;
      }
    }
    RingLength(q.data[..], q.nextread, q.nextwrite);
  }

  /** For instance, 31 and 33 threads fit, and 32 do not. */
  method RoundIt() returns (a: bool, b: bool, c: bool)
    ensures a && !b && c
  {
    a := ReserveAndFill(31);
    b := ReserveAndFill(32);
    c := ReserveAndFill(33);
  }

  // ---- Order of service ------------------------------------------------

  datatype Event<T> = Add(x: T) | Take

  /** What a FIFO holds and has handed out after some events. */
  function Serve<T>(q: seq<T>, evs: seq<Event<T>>): (r: (seq<T>, seq<T>)) {
    if evs == [] then (q, [])
    else
      var (h, out) := Serve(q, evs[..|evs| - 1]);
      match evs[|evs| - 1]
      case Add(x) => (h + [x], out)
      case Take => if h == [] then (h, out) else (h[1..], out + [h[0]])
  }

  function Added<T>(evs: seq<Event<T>>): seq<T> {
    if evs == [] then []
    else if evs[|evs| - 1].Add? then Added(evs[..|evs| - 1]) + [evs[|evs| - 1].x]
    else Added(evs[..|evs| - 1])
  }

  /** Everything comes out in the order it went in, and nothing is lost. */
  lemma {:induction false} Conserved<T>(q: seq<T>, evs: seq<Event<T>>)
    ensures Serve(q, evs).1 + Serve(q, evs).0 == q + Added(evs)
  {
    if evs != [] {
      Conserved(q, evs[..|evs| - 1]);
      var (h, out) := Serve(q, evs[..|evs| - 1]);
      match evs[|evs| - 1]
      case Add(x) =>
        assert out + (h + [x]) == (out + h) + [x] == (q + Added(evs[..|evs| - 1])) + [x];
      case Take =>
        if h != [] {
          assert (out + [h[0]]) + h[1..] == out + h;
        }
    }
  }

  /**
   An element with k others ahead of it is the one handed out by the (k+1)-th
   removal, whatever is added meanwhile.
   */
  lemma BoundedWaiting<T>(q: seq<T>, evs: seq<Event<T>>, k: nat)
    requires k < |q| && |Serve(q, evs).1| > k
    ensures Serve(q, evs).1[k] == q[k]
  {
    Conserved(q, evs);
    assert (Serve(q, evs).1 + Serve(q, evs).0)[k] == (q + Added(evs))[k];
  }

  /** The ring buffer does all of this, through any wrap-around and growth. */
  method Replay<T(0)>(q: Queue<T>, evs: seq<Event<T>>) returns (out: seq<T>)
    requires q.Valid()
    modifies q, q.data
    ensures q.Valid() && (q.data == old(q.data) || fresh(q.data))
    ensures (q.Contents(), out) == Serve(old(q.Contents()), evs)
  {
    out := [];
    for k := 0 to |evs|
      invariant q.Valid() && (q.data == old(q.data) || fresh(q.data))
      invariant (q.Contents(), out) == Serve(old(q.Contents()), evs[..k])
    {
      assert evs[..k + 1][..k] == evs[..k];
      match evs[k]
      case Add(x) =>
        var r := q.AddTail(x, true);
      case Take =>
        var b := q.IsEmpty();
        if !b {
          var x := q.RemHead();
          out := out + [x];
        }
    }
    assert evs[..|evs|] == evs;
  }
}
