/**
 A directory as its sequence of slots, and as the finite map from names to
 inode numbers that the slots stand for.
 */
module SfsNames {
  import opened SfsLayout
  import opened SfsVolume

  // ---- Slots of a directory file ---------------------------------------

  function Slot(c: seq<Byte>, i: nat): Dirent
    requires DIRENTSIZE * (i + 1) <= |c|
  {
    DecodeDirent(c[DIRENTSIZE * i..DIRENTSIZE * (i + 1)])
  }

  /** The first n slots of a directory with contents c. */
  ghost function Slots(c: seq<Byte>, n: nat): (es: seq<Dirent>)
    requires DIRENTSIZE * n <= |c|
    ensures |es| == n
  {
    if n == 0 then [] else Slots(c, n - 1) + [Slot(c, n - 1)]
  }

  lemma {:induction false} SlotsAt(c: seq<Byte>, n: nat, i: nat)
    requires DIRENTSIZE * n <= |c| && i < n
    ensures Slots(c, n)[i] == Slot(c, i)
  {
    if i < n - 1 {
      SlotsAt(c, n - 1, i);
    }
  }

  /** Writing an entry at slot i changes that slot alone, or appends one. */
  lemma SpliceSlot(c: seq<Byte>, n: nat, i: nat, e: Dirent)
    requires DIRENTSIZE * n <= |c| && i <= n && DIRENTSIZE * (i + 1) <= |c| && |e.field| == NAMELEN
    ensures var c' := Splice(c, DIRENTSIZE * i, EncodeDirent(e));
            && (i < n ==> Slots(c', n) == Slots(c, n)[i := e])
            && (i == n ==> Slots(c', n + 1) == Slots(c, n) + [e])
  {
    var c' := Splice(c, DIRENTSIZE * i, EncodeDirent(e));
    assert c'[DIRENTSIZE * i..DIRENTSIZE * (i + 1)] == EncodeDirent(e);
    DecodeEncodeDirent(e);
    var m := if i < n then n else n + 1;
    forall k: nat | k < m
      ensures Slots(c', m)[k] == if k == i then e else Slots(c, n)[k]
    {
      SlotsAt(c', m, k);
      if k != i {
        SlotsAt(c, n, k);
        assert c'[DIRENTSIZE * k..DIRENTSIZE * (k + 1)] == c[DIRENTSIZE * k..DIRENTSIZE * (k + 1)];
      }
    }
  }

  // ---- Names -----------------------------------------------------------

  predicate WellFormed(es: seq<Dirent>) {
    forall i | 0 <= i < |es| :: |es[i].field| == NAMELEN
  }

  /** Slot i is in use under the given name. */
  predicate Names(es: seq<Dirent>, i: nat, name: seq<Byte>)
    requires WellFormed(es)
  {
    i < |es| && es[i].ino != 0 && NameOf(es[i]) == name
  }

  /** Each name appears in at most one slot. */
  ghost predicate DistinctNames(es: seq<Dirent>)
    requires WellFormed(es)
  {
    forall i: nat, j: nat, name {:trigger Names(es, i, name), Names(es, j, name)} |
      Names(es, i, name) && Names(es, j, name) :: i == j
  }

  /** The finite map from names to inode numbers. */
  ghost function Bindings(es: seq<Dirent>): map<seq<Byte>, nat>
    requires WellFormed(es)
  {
    if es == [] then map[]
    else
      var (rest, e) := (Bindings(es[..|es| - 1]), es[|es| - 1]);
      if e.ino == 0 then rest else rest[NameOf(e) := e.ino]
  }

  lemma {:induction false} Bound(es: seq<Dirent>, i: nat, name: seq<Byte>)
    requires WellFormed(es) && DistinctNames(es) && Names(es, i, name)
    ensures name in Bindings(es) && Bindings(es)[name] == es[i].ino
  {
    var (init, last) := (es[..|es| - 1], |es| - 1);
    if i < last {
      assert Names(init, i, name);
      DistinctPrefix(es);
      Bound(init, i, name);
      assert Names(es, last, NameOf(es[last])) || es[last].ino == 0;
    }
  }

  lemma DistinctPrefix(es: seq<Dirent>)
    requires WellFormed(es) && es != [] && DistinctNames(es)
    ensures DistinctNames(es[..|es| - 1])
  {
    var init := es[..|es| - 1];
    forall i: nat, j: nat, name | Names(init, i, name) && Names(init, j, name)
      ensures i == j
    {
      assert Names(es, i, name) && Names(es, j, name);
    }
  }

  lemma {:induction false} SlotOf(es: seq<Dirent>, name: seq<Byte>) returns (i: nat)
    requires WellFormed(es) && name in Bindings(es)
    ensures Names(es, i, name)
  {
    var (init, last) := (es[..|es| - 1], |es| - 1);
    if es[last].ino != 0 && NameOf(es[last]) == name {
      i := last;
    } else {
      i := SlotOf(init, name);
      assert Names(init, i, name);
    }
  }

  /** Two directories that use the same names for the same inodes stand for the same map. */
  lemma SameBindings(es: seq<Dirent>, m: map<seq<Byte>, nat>)
    requires WellFormed(es) && DistinctNames(es)
    requires forall name | name in m :: exists i: nat :: Names(es, i, name)
    requires forall i: nat, name {:trigger Names(es, i, name)} | Names(es, i, name) :: name in m && m[name] == es[i].ino
    ensures Bindings(es) == m
  {
    forall name | name in m
      ensures name in Bindings(es) && Bindings(es)[name] == m[name]
    {
      var i: nat :| Names(es, i, name);
      Bound(es, i, name);
    }
    forall name | name in Bindings(es)
      ensures name in m
    {
      var i := SlotOf(es, name);
    }
  }

  /** Filling a free slot, or a new one at the end, with an unused name adds one binding. */
  lemma LinkBinds(es: seq<Dirent>, es': seq<Dirent>, k: nat, e: Dirent, name: seq<Byte>)
    requires WellFormed(es) && DistinctNames(es) && |e.field| == NAMELEN && e.ino != 0 && NameOf(e) == name
    requires forall i: nat | i < |es| :: !Names(es, i, name)
    requires (k < |es| && es[k].ino == 0 && es' == es[k := e]) || (k == |es| && es' == es + [e])
    ensures WellFormed(es') && DistinctNames(es') && Bindings(es') == Bindings(es)[name := e.ino]
  {
    forall i: nat, nm | Names(es', i, nm)
      ensures if i == k then nm == name else Names(es, i, nm)
    {}
    forall i: nat, j: nat, nm | Names(es', i, nm) && Names(es', j, nm)
      ensures i == j
    {
      assert i != k ==> Names(es, i, nm);
      assert j != k ==> Names(es, j, nm);
    }
    var m := Bindings(es)[name := e.ino];
    forall nm | nm in m
      ensures exists i: nat :: Names(es', i, nm)
    {
      if nm == name {
        assert Names(es', k, nm);
      } else {
        var i := SlotOf(es, nm);
        assert Names(es', i, nm);
      }
    }
    forall i: nat, nm | Names(es', i, nm)
      ensures nm in m && m[nm] == es'[i].ino
    {
      if i != k {
        assert Names(es, i, nm);
        Bound(es, i, nm);
      }
    }
    SameBindings(es', m);
  }

  /** Freeing a slot removes exactly the binding it held. */
  lemma UnlinkBinds(es: seq<Dirent>, k: nat, e: Dirent, name: seq<Byte>)
    requires WellFormed(es) && DistinctNames(es) && |e.field| == NAMELEN && e.ino == 0 && Names(es, k, name)
    ensures var es' := es[k := e]; WellFormed(es') && DistinctNames(es') && Bindings(es') == Bindings(es) - {name}
  {
    var es' := es[k := e];
    forall i: nat, j: nat, nm | Names(es', i, nm) && Names(es', j, nm)
      ensures i == j
    {
      assert Names(es, i, nm) && Names(es, j, nm);
    }
    var m := Bindings(es) - {name};
    forall nm | nm in m
      ensures exists i: nat :: Names(es', i, nm)
    {
      var i := SlotOf(es, nm);
      assert Names(es', i, nm);
    }
    forall i: nat, nm | Names(es', i, nm)
      ensures nm in m && m[nm] == es'[i].ino
    {
      assert Names(es, i, nm);
      Bound(es, i, nm);
    }
    SameBindings(es', m);
  }

  // ---- Link counts -----------------------------------------------------

  /** How many slots name the inode. */
  ghost function Links(es: seq<Dirent>, ino: nat): nat {
    if es == [] then 0 else Links(es[..|es| - 1], ino) + if es[|es| - 1].ino == ino then 1 else 0
  }

  lemma {:induction false} LinksBound(es: seq<Dirent>, ino: nat)
    ensures Links(es, ino) <= |es|
  {
    if es != [] {
      LinksBound(es[..|es| - 1], ino);
    }
  }

  lemma {:induction false} LinksUpdate(es: seq<Dirent>, k: nat, e: Dirent, ino: nat)
    requires k < |es|
    ensures Links(es[k := e], ino) + (if es[k].ino == ino then 1 else 0) ==
              Links(es, ino) + (if e.ino == ino then 1 else 0)
  {
    var (init, last) := (es[..|es| - 1], |es| - 1);
    if k < last {
      LinksUpdate(init, k, e, ino);
      assert es[k := e][..last] == init[k := e];
    } else {
      assert es[k := e][..last] == init;
    }
  }

  lemma LinksAppend(es: seq<Dirent>, e: Dirent, ino: nat)
    ensures Links(es + [e], ino) == Links(es, ino) + if e.ino == ino then 1 else 0
  {
    assert (es + [e])[..|es|] == es;
  }

  lemma {:induction false} LinksNone(es: seq<Dirent>, ino: nat)
    requires forall i | 0 <= i < |es| :: es[i].ino != ino
    ensures Links(es, ino) == 0
  {
    if es != [] {
      LinksNone(es[..|es| - 1], ino);
    }
  }

  lemma {:induction false} LinksSome(es: seq<Dirent>, i: nat)
    requires i < |es|
    ensures Links(es, es[i].ino) > 0
  {
    if i < |es| - 1 {
      LinksSome(es[..|es| - 1], i);
    }
  }
}
