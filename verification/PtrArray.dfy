/**
 The resizable array of pointers (kern/lib/array.c), refined to a sequence;
 thread.c keeps its sleepers and zombies in two of them.
 */
module PtrArray {
  import opened Basics

  /** The room array_preallocate ends up with: from nothing, 2, 6, 14, 30 and so on. */
  function Grown(max: nat, nguys: nat): (r: nat)
    ensures r >= nguys && r >= max
    decreases nguys - max
  {
    if nguys <= max then max else Grown((max + 1) * 2, nguys)
  }

  /** The growth loop of array_preallocate. */
  method NewMax(max: nat, nguys: nat) returns (newmax: nat)
    ensures newmax == Grown(max, nguys)
  {
    newmax := max;
    while nguys > newmax
      invariant Grown(newmax, nguys) == Grown(max, nguys)
      decreases nguys - newmax
    {
      newmax := (newmax + 1) * 2;
    }
  }

  function Larger(a: nat, b: nat): nat {
    if a < b then b else a
  }

  /** One reservation after another is the larger of the two. */
  lemma {:induction false} GrownTwice(max: nat, a: nat, b: nat)
    ensures Grown(Grown(max, a), b) == Grown(max, Larger(a, b))
    decreases a - max
  {
    if a > max {
      GrownTwice((max + 1) * 2, a, b);
    }
  }

  /**
   A fresh array stays within 16, the bound below which array_setsize keeps
   storage, up to 14 elements and not beyond.
   */
  lemma GrownFrom0(n: nat)
    ensures Grown(0, n) <= 16 <==> n <= 14
    ensures Grown(0, n) == 0 <==> n == 0
  {
    assert Grown(0, n) == if n <= 0 then 0 else Grown(2, n);
    assert Grown(2, n) == if n <= 2 then 2 else Grown(6, n);
    assert Grown(6, n) == if n <= 6 then 6 else Grown(14, n);
    assert Grown(14, n) == if n <= 14 then 14 else Grown(30, n);
  }

  class PtrArray<T(0)> {
    var num: nat
    var max: nat
    var v: array?<T>

    ghost predicate Valid()
      reads this
    {
      num <= max && (max > 0 ==> v != null) && (v != null ==> v.Length == max)
    }

    ghost function Contents(): seq<T>
      requires Valid()
      reads this, v
    {
      if v == null then [] else v[..num]
    }

    constructor Create()
      ensures Valid() && v == null && max == 0 && Contents() == []
    {
      v, num, max := null, 0, 0;
    }

    /** array_preallocate: room for nguys elements, by moving to new storage. */
    method Preallocate(nguys: nat, memory: bool) returns (r: MemStatus)
      requires Valid()
      modifies this
      ensures Valid() && Contents() == old(Contents()) && num == old(num)
      ensures r.Success? <==> memory
      ensures r.Success? ==> fresh(v) && max == Grown(old(max), nguys)
      ensures r.OutOfMemory? ==> max == old(max) && v == old(v)
    {
      var newmax := NewMax(max, nguys);
      if !memory {
        return OutOfMemory;
      }
      var newv := new T[newmax];
      max := newmax;
      for i := 0 to num
        invariant num == old(num) && v == old(v) && max == newmax && newv != v
        invariant v != null ==> v.Length == old(max) && v[..num] == old(v[..num])
        invariant forall k | 0 <= k < i :: newv[k] == v[k]
      {
        newv[i] := v[i];
      }
      ghost var oldv := v;
      v := newv;
      assert oldv != null ==> newv[..num] == oldv[..num];
      return Success;
    }

    /** array_setsize: what was there stays up to the new size; emptying a large array drops its storage. */
    method SetSize(nguys: nat, memory: bool) returns (r: MemStatus)
      requires Valid()
      modifies this
      ensures Valid() && (v == old(v) || v == null || fresh(v))
      ensures r.OutOfMemory? <==> nguys > old(max) && !memory
      ensures r.OutOfMemory? ==> Contents() == old(Contents()) && max == old(max) && v == old(v)
      ensures r.Success? ==> num == nguys && |Contents()| == nguys
      ensures r.Success? ==> forall k | 0 <= k < nguys && k < old(num) :: Contents()[k] == old(Contents()[k])
      ensures r.Success? ==> max == if nguys == 0 && old(max) > 16 then 0 else Grown(old(max), nguys)
      ensures nguys <= old(max) ==> v == if nguys == 0 && old(max) > 16 then null else old(v)
    {
      if nguys > max {
        r := Preallocate(nguys, memory);
        if r.OutOfMemory? {
          return;
        }
      } else if nguys == 0 && max > 16 {
        assert v != null;
        v := null;
        max := 0;
      }
      num := nguys;
      return Success;
    }

    /** array_add: at the end; memory is needed exactly when the storage is used up. */
    method Add(x: T, memory: bool) returns (r: MemStatus)
      requires Valid()
      modifies this, v
      ensures Valid() && (v == old(v) || fresh(v))
      ensures r.OutOfMemory? <==> old(num) == old(max) && !memory
      ensures r.OutOfMemory? ==> Contents() == old(Contents()) && max == old(max) && v == old(v)
      ensures r.Success? ==> Contents() == old(Contents()) + [x] && max == Grown(old(max), old(num) + 1)
    {
      ghost var before := Contents();
      var ix := num;
      r := SetSize(ix + 1, memory);
      if r.OutOfMemory? {
        return;
      }
      assert Contents()[..ix] == before;
      v[ix] := x;
    }

    /** array_remove: one element goes, the rest keep their order. */
    method Remove(index: nat)
      requires Valid() && index < num
      modifies this, v
      ensures Valid() && v == old(v) && max == old(max)
      ensures Contents() == old(Contents())[..index] + old(Contents())[index + 1..]
    {
      for i := index to num - 1
        invariant num == old(num) && v == old(v) && max == old(max) && Valid()
        invariant forall k | 0 <= k < index :: v[k] == old(v[k])
        invariant forall k | index <= k < i :: v[k] == old(v[k + 1])
        invariant forall k | i <= k < num :: v[k] == old(v[k])
      {
        v[i] := v[i + 1];
      }
      num := num - 1;
    }

    /** array_getguy. */
    method GetGuy(index: nat) returns (x: T)
      requires Valid() && index < num
      ensures x == Contents()[index]
    {
      x := v[index];
    }
  }

  /** The largest of some reservations, 0 if there are none. */
  function Largest(ns: seq<nat>): nat {
    if ns == [] then 0 else Larger(Largest(ns[..|ns| - 1]), ns[|ns| - 1])
  }

  /**
   Room reserved in a new array, as thread_fork does call after call, outlives
   emptying the array exactly when the largest reservation was for 1 to 14
   elements. exorcise() empties zombies[] this way, so past 14 threads the
   array_add in mi_switch can need memory that thread_fork had reserved.
   */
  method ReserveEmptyAdd<T(0)>(ns: seq<nat>, x: T) returns (r: MemStatus)
    ensures r.Success? <==> 1 <= Largest(ns) <= 14
  {
    var a := new PtrArray<T>.Create();
    for k := 0 to |ns|
      invariant fresh(a) && (a.v == null || fresh(a.v)) && a.Valid() && a.max == Grown(0, Largest(ns[..k]))
    {
      r := a.Preallocate(ns[k], true);
      assert ns[..k + 1][..k] == ns[..k];
      GrownTwice(0, Largest(ns[..k]), ns[k]);
    }
    assert ns[..|ns|] == ns;
    GrownFrom0(Largest(ns));
    r := a.SetSize(0, false);
    assert r.Success?;
    r := a.Add(x, false);
  }

  /** For instance, room for 14 stays and room for 15 does not. */
  method FourteenAndFifteen<T(0)>(x: T) returns (r14: MemStatus, r15: MemStatus)
    ensures r14.Success? && r15.OutOfMemory?
  {
    assert Largest([14]) == Larger(Largest([]), 14) && Largest([15]) == Larger(Largest([]), 15);
    r14 := ReserveEmptyAdd([14], x);
    r15 := ReserveEmptyAdd([15], x);
  }
}
