/**
 The table of loaded vnodes: sfs_loadvnode, sfs_makeobj, sfs_sync_inode,
 sfs_reclaim (sfs_vnode.c) and the reference counts of vnode.c that trigger
 the last of these.
 */
module SfsTable {
  import Basics
  import opened SfsLayout
  import opened SfsVolume
  import opened SfsVnode

  /** Inode numbers of the loaded vnodes. */
  ghost function Loaded(vnodes: seq<Vnode>): set<nat> {
    set i | 0 <= i < |vnodes| :: vnodes[i].ino
  }

  // ---- Changes to the table --------------------------------------------

  /** Adding a vnode for an inode that has none. */
  lemma AddVnode(s: State, v: Vol, x: Vnode)
    requires Good(s, v) && x.ino !in Loaded(s.vnodes) && x.ino in v.files && x.refcount > 0
    requires x.inode.direct == v.files[x.ino].direct && x.inode.indirect == v.files[x.ino].indirect
    requires x.dirty || x.inode == v.files[x.ino]
    ensures var w := v.(files := v.files[x.ino := x.inode]);
            && Good(s.(vnodes := s.vnodes + [x]), w) && Contents(w) == Contents(v)
            && Loaded(s.vnodes + [x]) == Loaded(s.vnodes) + {x.ino}
  {
    var ns := s.vnodes + [x];
    var w := v.(files := v.files[x.ino := x.inode]);
    RelabelFile(v, x.ino, x.inode);
    assert ns[|s.vnodes|] == x;
    forall ino | ino in Loaded(s.vnodes)
      ensures ino in Loaded(ns)
    {
      var k :| 0 <= k < |s.vnodes| && s.vnodes[k].ino == ino;
      assert ns[k].ino == ino;
    }
    forall k | 0 <= k < |s.vnodes|
      ensures s.vnodes[k].ino != x.ino
    {
      assert s.vnodes[k].ino in Loaded(s.vnodes);
    }
    forall ino | ino in DirtyInos(s.vnodes)
      ensures ino in DirtyInos(ns)
    {
      var k :| 0 <= k < |s.vnodes| && s.vnodes[k].dirty && s.vnodes[k].ino == ino;
      assert ns[k].dirty && ns[k].ino == ino;
    }
    forall ino | ino in w.files && ino !in DirtyInos(ns)
      ensures DecodeInode(BlockAt(w.disk, ino)) == w.files[ino]
    {
      assert DecodeInode(BlockAt(v.disk, ino)) == v.files[ino];
    }
  }

  /** Changing only the reference count of a vnode. */
  lemma Recount(s: State, v: Vol, i: nat, n: nat)
    requires Good(s, v) && i < |s.vnodes| && n > 0
    ensures var ns := s.vnodes[i := s.vnodes[i].(refcount := n)];
            Good(s.(vnodes := ns), v) && Loaded(ns) == Loaded(s.vnodes)
  {
    var ns := s.vnodes[i := s.vnodes[i].(refcount := n)];
    assert forall k | 0 <= k < |ns| :: ns[k].ino == s.vnodes[k].ino && ns[k].dirty == s.vnodes[k].dirty;
    assert DirtyInos(ns) == DirtyInos(s.vnodes);
  }

  /** Dropping a clean vnode. */
  lemma DropVnode(s: State, v: Vol, i: nat)
    requires Good(s, v) && i < |s.vnodes| && !s.vnodes[i].dirty
    ensures var ns := Basics.RemoveAt(s.vnodes, i);
            Good(s.(vnodes := ns), v) && Loaded(ns) == Loaded(s.vnodes) - {s.vnodes[i].ino}
  {
    var ns := Basics.RemoveAt(s.vnodes, i);
    assert forall k | 0 <= k < |ns| :: ns[k] == s.vnodes[if k < i then k else k + 1];
    forall k | 0 <= k < |s.vnodes| && k != i
      ensures s.vnodes[k].ino in Loaded(ns) && (s.vnodes[k].dirty ==> s.vnodes[k].ino in DirtyInos(ns))
    {
      var j := if k < i then k else k - 1;
      assert ns[j] == s.vnodes[k];
    }
    assert DirtyInos(ns) == DirtyInos(s.vnodes);
  }

  /** Writing a loaded inode to its block. */
  lemma WriteInode(s: State, v: Vol, i: nat)
    requires Good(s, v) && i < |s.vnodes|
    ensures s.vnodes[i].ino < |s.disk|
    ensures var (ino, ip) := (s.vnodes[i].ino, s.vnodes[i].inode);
            var d := s.disk[ino := EncodeInode(ip)];
            && Good(s.(disk := d, vnodes := s.vnodes[i := s.vnodes[i].(dirty := false)]), v.(disk := d))
            && Contents(v.(disk := d)) == Contents(v)
            && forall j | j in v.files :: SamePtrs(v, v.(disk := d), j)
  {
    var (ino, ip) := (s.vnodes[i].ino, s.vnodes[i].inode);
    assert OwnedInode(v, ino);
    OnDevice(v, ino);
    var d := s.disk[ino := EncodeInode(ip)];
    var w := v.(disk := d);
    var ns := s.vnodes[i := s.vnodes[i].(dirty := false)];
    WriteElsewhere(v, ino, EncodeInode(ip));
    InodeWritten(v, ino, DirtyInos(s.vnodes), s.bits);
    assert forall k | 0 <= k < |ns| :: ns[k].ino == s.vnodes[k].ino && (k != i ==> ns[k] == s.vnodes[k]);
    forall j | j in DirtyInos(s.vnodes) && j != ino
      ensures j in DirtyInos(ns)
    {
      var k :| 0 <= k < |s.vnodes| && s.vnodes[k].dirty && s.vnodes[k].ino == j;
      assert ns[k].dirty && ns[k].ino == j;
    }
  }

  lemma InodeWritten(v: Vol, ino: nat, dirty: set<nat>, bits: seq<Byte>)
    requires Owned(v) && ino in v.files && ino < |v.disk| && Backed(v, dirty) && SuperOk(v.disk, |v.disk|)
    ensures var d := v.disk[ino := EncodeInode(v.files[ino])];
            && Backed(v.(disk := d), dirty - {ino}) && SuperOk(d, |d|)
            && (MapBacked(v.disk, |v.disk|, bits) ==> MapBacked(d, |d|, bits))
  {
    var d := v.disk[ino := EncodeInode(v.files[ino])];
    DecodeEncodeInode(v.files[ino]);
    assert OwnedInode(v, ino) && IsReserved(|v.disk|, 0);
    forall j | j in v.files && j !in dirty - {ino}
      ensures DecodeInode(BlockAt(d, j)) == v.files[j]
    {
      assert j != ino ==> DecodeInode(BlockAt(v.disk, j)) == v.files[j];
    }
    forall j: nat | j < BitBlocks(|v.disk|)
      ensures MapBlock(d, j) == MapBlock(v.disk, j)
    {
      assert IsReserved(|v.disk|, MAPSTART + j);
    }
  }

  /** Erasing a file that has no blocks left: its inode block is given back. */
  lemma EraseFile(s: State, v: Vol, i: nat, bits: seq<Byte>)
    requires Good(s, v) && i < |s.vnodes| && !s.vnodes[i].dirty && s.vnodes[i].inode.indirect == 0
    requires forall f: nat | f < MAXFILEBLOCKS :: FilePtr(s.vnodes[i].inode, s.disk, f) == 0
    requires MapOk(bits, |s.disk|, v.owner.Keys - {s.vnodes[i].ino})
    ensures var ino := s.vnodes[i].ino;
            var w := Vol(s.disk, v.files - {ino}, v.owner - {ino});
            Good(State(s.disk, bits, true, Basics.RemoveAt(s.vnodes, i)), w) && Contents(w) == Contents(v) - {ino}
  {
    var ino := s.vnodes[i].ino;
    var w := Vol(s.disk, v.files - {ino}, v.owner - {ino});
    var ns := Basics.RemoveAt(s.vnodes, i);
    DropVnode(s, v, i);
    ForgetFile(v, ino);
    assert forall k | 0 <= k < |ns| :: ns[k] == s.vnodes[if k < i then k else k + 1];
    forall j | j in w.files && j !in DirtyInos(ns)
      ensures DecodeInode(BlockAt(w.disk, j)) == w.files[j]
    {
      assert DecodeInode(BlockAt(v.disk, j)) == v.files[j];
    }
    assert w.owner.Keys == v.owner.Keys - {ino};
  }

  /** A freshly allocated block as an inode that says nothing yet. */
  lemma NewInode(s: State, v: Vol, b: nat, bits: seq<Byte>, z: ClearedBlock)
    requires Good(s, v) && b !in v.owner && b < |s.disk| && MapOk(bits, |s.disk|, v.owner.Keys + {b})
    ensures var w := Vol(s.disk[b := z], v.files[b := ZeroInode], v.owner[b := InodeBlock(b)]);
            && Good(State(w.disk, bits, true, s.vnodes), w)
            && b in Contents(w) && Contents(w) == Contents(v)[b := Contents(w)[b]] && AllZeros(Contents(w)[b])
            && b !in Loaded(s.vnodes) && b !in v.files
  {
    var u := v.(disk := s.disk[b := z]);
    var w := Vol(u.disk, v.files[b := ZeroInode], v.owner[b := InodeBlock(b)]);
    WriteElsewhere(v, b, z);
    AddFile(u, b, ZeroInode);
    MetaWrite(v, v.disk, b, z);
    MetaKept(v, u.disk, DirtyInos(s.vnodes), []);
    DecodeCleared(z);
    assert b in v.files ==> OwnedInode(v, b);
    forall j | j in w.files && j !in DirtyInos(s.vnodes)
      ensures DecodeInode(BlockAt(w.disk, j)) == w.files[j]
    {
      assert j != b ==> DecodeInode(BlockAt(u.disk, j)) == u.files[j];
    }
  }

  // ---- Operations ------------------------------------------------------

  /** sfs_sync_inode. */
  method SyncInode(fs: Sfs, i: nat)
    requires fs.Valid() && i < |fs.s.vnodes|
    modifies fs
    ensures fs.Valid() && fs.vol == old(fs.vol).(disk := fs.s.disk) && Contents(fs.vol) == old(Contents(fs.vol))
    ensures fs.s == old(fs.s).(disk := fs.s.disk, vnodes := fs.s.vnodes) && |fs.s.disk| == |old(fs.s).disk|
    ensures fs.s.vnodes == old(fs.s).vnodes[i := old(fs.s).vnodes[i].(dirty := false)]
    ensures forall j | j in old(fs.vol).files :: SamePtrs(old(fs.vol), fs.vol, j)
  {
    var x := fs.s.vnodes[i];
    if x.dirty {
      WriteInode(fs.s, fs.vol, i);
      var disk := fs.s.disk[x.ino := EncodeInode(x.inode)];
      fs.s := fs.s.(disk := disk, vnodes := fs.s.vnodes[i := x.(dirty := false)]);
      fs.vol := fs.vol.(disk := disk);
    } else {
      assert forall j | j in fs.vol.files :: SamePtrs(fs.vol, fs.vol, j);
    }
  }

  /** sfs_loadvnode for an inode that is in use: its one vnode, loaded now or before. */
  method LoadVnode(fs: Sfs, ino: Word) returns (i: nat)
    requires fs.Valid() && ino in fs.vol.files && fs.vol.files[ino].kind in {TYPE_FILE, TYPE_DIR}
    modifies fs
    ensures fs.Valid() && fs.vol == old(fs.vol)
    ensures i < |fs.s.vnodes| && fs.s.vnodes[i].ino == ino
    ensures fs.s == old(fs.s).(vnodes := fs.s.vnodes)
    ensures ino in old(Loaded(fs.s.vnodes)) ==>
              i < |old(fs.s.vnodes)|
              && fs.s.vnodes ==
                   old(fs.s).vnodes[i := old(fs.s).vnodes[i].(refcount := old(fs.s).vnodes[i].refcount + 1)]
    ensures ino !in old(Loaded(fs.s.vnodes)) ==>
              i == |old(fs.s.vnodes)| && fs.s.vnodes == old(fs.s).vnodes + [Vnode(ino, fs.vol.files[ino], false, 1)]
    ensures Loaded(fs.s.vnodes) == old(Loaded(fs.s.vnodes)) + {ino}
  {
    var num := |fs.s.vnodes|;
    for k := 0 to num
      invariant fs.s == old(fs.s) && fs.vol == old(fs.vol)
      invariant forall j | 0 <= j < k :: fs.s.vnodes[j].ino != ino
    {
      InodeOnDevice(fs.s, fs.vol, fs.s.vnodes[k].ino);
      var used := fs.Bused(fs.s.vnodes[k].ino);
      assert used;
      if fs.s.vnodes[k].ino == ino {
        assert ino in Loaded(fs.s.vnodes);
        var x := fs.s.vnodes[k];
        Recount(fs.s, fs.vol, k, x.refcount + 1);
        fs.s := fs.s.(vnodes := fs.s.vnodes[k := x.(refcount := x.refcount + 1)]);
        return k;
      }
    }
    assert ino !in Loaded(fs.s.vnodes);
    InodeOnDevice(fs.s, fs.vol, ino);
    var used := fs.Bused(ino);
    assert used;
    NotDirty(fs.s, ino);
    assert DecodeInode(BlockAt(fs.vol.disk, ino)) == fs.vol.files[ino];
    var ip := DecodeInode(fs.s.disk[ino]);
    assert ip.kind == TYPE_FILE || ip.kind == TYPE_DIR;
    var x := Vnode(ino, ip, false, 1);
    AddVnode(fs.s, fs.vol, x);
    assert fs.vol.files == fs.vol.files[ino := ip];
    fs.s := fs.s.(vnodes := fs.s.vnodes + [x]);
    return num;
  }

  lemma InodeOnDevice(s: State, v: Vol, ino: nat)
    requires Sound(s, v) && ino in v.files
    ensures 0 < ino < |s.disk| && ino in v.owner && v.owner[ino] == InodeBlock(ino)
  {
    assert OwnedInode(v, ino);
    OnDevice(v, ino);
  }

  lemma NotDirty(s: State, ino: nat)
    requires ino !in Loaded(s.vnodes)
    ensures ino !in DirtyInos(s.vnodes)
  {
    forall j | j in DirtyInos(s.vnodes)
      ensures j in Loaded(s.vnodes)
    {
      var k :| 0 <= k < |s.vnodes| && s.vnodes[k].dirty && s.vnodes[k].ino == j;
      assert s.vnodes[k].ino in Loaded(s.vnodes);
    }
  }

  /** sfs_loadvnode reading the inode of a block that sfs_balloc has cleared. */
  method ReadCleared(disk: seq<Block>, ino: nat) returns (ip: Inode)
    requires ino < |disk| && forall i | 0 <= i < BLOCKSIZE :: disk[ino][i] == 0
    ensures ip == ZeroInode
  {
    DecodeCleared(disk[ino]);
    ip := DecodeInode(disk[ino]);
  }

  /** sfs_makeobj: a new, empty, unlinked file and its vnode; the type forced onto the zeroed inode. */
  method MakeObj(fs: Sfs) returns (r: Result<nat>)
    requires fs.Valid()
    modifies fs
    ensures fs.Valid()
    ensures r.Err? <==> old(NoSpace(fs.vol))
    ensures r.Err? ==> r.error == ENOSPC && fs.s == old(fs.s) && fs.vol == old(fs.vol)
    ensures r.Ok? ==> var ip := ZeroInode.(kind := TYPE_FILE);
                      && r.value == |old(fs.s.vnodes)| && |fs.s.vnodes| == r.value + 1
                      && (var x := fs.s.vnodes[r.value];
                          && x == Vnode(x.ino, ip, true, 1)
                          && fs.s.vnodes == old(fs.s).vnodes + [x]
                          && x.ino !in old(fs.vol).files && x.ino !in old(Loaded(fs.s.vnodes))
                          && fs.vol.files == old(fs.vol).files[x.ino := ip]
                          && x.ino in Contents(fs.vol) && AllZeros(Contents(fs.vol)[x.ino])
                          && Contents(fs.vol) == old(Contents(fs.vol))[x.ino := Contents(fs.vol)[x.ino]]
                          && Loaded(fs.s.vnodes) == old(Loaded(fs.s.vnodes)) + {x.ino}
                          && OnlyNew(old(fs.vol), fs.vol, x.ino))
  {
    var b := fs.Balloc();
    if b.Err? {
      return Err(b.error);
    }
    var ino := b.value;
    ghost var v := fs.vol;
    NewInode(old(fs.s), v, ino, fs.s.bits, Zero);
    ghost var w := Vol(fs.s.disk, v.files[ino := ZeroInode], v.owner[ino := InodeBlock(ino)]);
    var ip := ReadCleared(fs.s.disk, ino);
    assert ip.kind == TYPE_INVAL;
    var x := Vnode(ino, ip.(kind := TYPE_FILE), true, 1);
    AddVnode(fs.s, w, x);
    assert v.files[ino := x.inode] == w.files[ino := x.inode];
    r := Ok(|fs.s.vnodes|);
    fs.s := fs.s.(vnodes := fs.s.vnodes + [x]);
    fs.vol := w.(files := w.files[ino := x.inode]);
  }

  /** sfs_reclaim's last step: the vnode leaves the table. */
  lemma RemoveSet(vnodes: seq<Vnode>, i: nat, x: Vnode)
    requires i < |vnodes|
    ensures Basics.RemoveAt(vnodes[i := x], i) == Basics.RemoveAt(vnodes, i)
  {}

  /** A truncation to nothing leaves no pointer, and gives back every block that was about the file. */
  lemma TruncatedToZero(v: Vol, w: Vol, ino: nat)
    requires Owned(v) && Truncation(v, w, ino, 0)
    ensures w.files[ino].indirect == 0
    ensures forall f: nat | f < MAXFILEBLOCKS :: FilePtr(w.files[ino], w.disk, f) == 0
    ensures forall b | b in v.owner :: b in w.owner <==> !About(v.owner[b], ino)
  {
    forall b | b in v.owner
      ensures b in w.owner <==> !About(v.owner[b], ino)
    {
      assert b in w.owner <==> !TruncFrees(v, ino, 0, b);
    }
  }

  lemma UpdateThenDrop<K, V>(m: map<K, V>, k: K, x: V)
    ensures m[k := x] - {k} == m - {k}
  {}

  /** sfs_reclaim of a file without links: its data, then its inode, then its vnode go. */
  method EraseUnlinked(fs: Sfs, i: nat)
    requires fs.Valid() && i < |fs.s.vnodes|
    modifies fs
    ensures fs.Valid() && fs.s.vnodes == Basics.RemoveAt(old(fs.s.vnodes), i)
    ensures var ino := old(fs.s).vnodes[i].ino;
            && fs.vol.files == old(fs.vol).files - {ino}
            && Contents(fs.vol) == old(Contents(fs.vol)) - {ino}
            && (forall b | b in old(fs.vol).owner ::
                  b in fs.vol.owner <==> b != ino && !About(old(fs.vol).owner[b], ino))
            && (forall b | b in fs.vol.owner :: b in old(fs.vol).owner && fs.vol.owner[b] == old(fs.vol).owner[b])
  {
    var ino := fs.s.vnodes[i].ino;
    fs.Truncate(i, 0);
    ghost var v1, s1 := fs.vol, fs.s;
    TruncatedToZero(old(fs.vol), v1, ino);
    TruncatedContents(old(fs.vol), v1, ino, 0);
    RemoveSet(old(fs.s).vnodes, i, s1.vnodes[i]);
    DiscardInode(fs, i);
    UpdateThenDrop(old(fs.vol).files, ino, v1.files[ino]);
    UpdateThenDrop(old(Contents(fs.vol)), ino, Contents(v1)[ino]);
  }

  /** Write back the inode of a file that has no blocks, give up its block, and unload it. */
  method DiscardInode(fs: Sfs, i: nat)
    requires fs.Valid() && i < |fs.s.vnodes| && fs.s.vnodes[i].inode.indirect == 0
    requires forall f: nat | f < MAXFILEBLOCKS :: FilePtr(fs.s.vnodes[i].inode, fs.s.disk, f) == 0
    modifies fs
    ensures fs.Valid() && fs.s.vnodes == Basics.RemoveAt(old(fs.s.vnodes), i)
    ensures var ino := old(fs.s).vnodes[i].ino;
            && fs.vol.files == old(fs.vol).files - {ino} && fs.vol.owner == old(fs.vol).owner - {ino}
            && Contents(fs.vol) == old(Contents(fs.vol)) - {ino}
  {
    var ino := fs.s.vnodes[i].ino;
    SyncInode(fs, i);
    assert SamePtrs(old(fs.vol), fs.vol, ino);
    InodeOnDevice(fs.s, fs.vol, ino);
    var bits := Bfree(fs.s.bits, |fs.s.disk|, ino, fs.vol.owner.Keys);
    EraseFile(fs.s, fs.vol, i, bits);
    RemoveSet(old(fs.s).vnodes, i, fs.s.vnodes[i]);
    fs.s := State(fs.s.disk, bits, true, Basics.RemoveAt(fs.s.vnodes, i));
    fs.vol := Vol(fs.s.disk, fs.vol.files - {ino}, fs.vol.owner - {ino});
  }

  /** sfs_reclaim of a file that still has links: written back, then unloaded. */
  method Unload(fs: Sfs, i: nat)
    requires fs.Valid() && i < |fs.s.vnodes|
    modifies fs
    ensures fs.Valid() && fs.s.vnodes == Basics.RemoveAt(old(fs.s.vnodes), i)
    ensures fs.vol == old(fs.vol).(disk := fs.s.disk) && Contents(fs.vol) == old(Contents(fs.vol))
    ensures |fs.s.disk| == |old(fs.s).disk|
  {
    SyncInode(fs, i);
    DropVnode(fs.s, fs.vol, i);
    RemoveSet(old(fs.s).vnodes, i, fs.s.vnodes[i]);
    fs.s := fs.s.(vnodes := Basics.RemoveAt(fs.s.vnodes, i));
  }

  /** VOP_DECREF: vnode_decref, with sfs_reclaim when the last reference goes. */
  method Decref(fs: Sfs, i: nat)
    requires fs.Valid() && i < |fs.s.vnodes|
    modifies fs
    ensures fs.Valid()
    ensures var (x, ino) := (old(fs.s).vnodes[i], old(fs.s).vnodes[i].ino);
            && (x.refcount > 1 ==>
                  fs.vol == old(fs.vol) && fs.s.vnodes == old(fs.s).vnodes[i := x.(refcount := x.refcount - 1)])
            && (x.refcount == 1 ==> fs.s.vnodes == Basics.RemoveAt(old(fs.s.vnodes), i))
            && (x.refcount == 1 && x.inode.links > 0 ==>
                  fs.vol == old(fs.vol).(disk := fs.s.disk) && Contents(fs.vol) == old(Contents(fs.vol))
                  && |fs.s.disk| == |old(fs.s).disk|)
            && (x.refcount == 1 && x.inode.links == 0 ==>
                  fs.vol.files == old(fs.vol).files - {ino} && Contents(fs.vol) == old(Contents(fs.vol)) - {ino})
  {
    var x := fs.s.vnodes[i];
    assert x.refcount > 0;
    if x.refcount > 1 {
      Recount(fs.s, fs.vol, i, x.refcount - 1);
      fs.s := fs.s.(vnodes := fs.s.vnodes[i := x.(refcount := x.refcount - 1)]);
    } else if x.inode.links == 0 {
      EraseUnlinked(fs, i);
    } else {
      Unload(fs, i);
    }
  }
}
