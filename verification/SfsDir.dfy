/**
 Directory I/O (sfs_vnode.c: sfs_readdir, sfs_writedir, sfs_dir_findname,
 sfs_dir_link, sfs_dir_unlink) on the root directory, the only one there is.
 */
module SfsDir {
  import opened SfsLayout
  import opened SfsVolume
  import opened SfsVnode
  import opened SfsNames

  /** The root inode is a directory made of whole slots. */
  ghost predicate DirOk(v: Vol) {
    && ROOT in v.files && v.files[ROOT].kind == TYPE_DIR && v.files[ROOT].links == 1
    && v.files[ROOT].size % DIRENTSIZE == 0 && v.files[ROOT].size <= MAXFILEBYTES
  }

  ghost function DirSlots(v: Vol): (es: seq<Dirent>)
    requires DirOk(v)
  {
    Slots(Content(v.files[ROOT], v.disk), v.files[ROOT].size / DIRENTSIZE)
  }

  /** Index d of the vnode table holds the root directory. */
  predicate IsRoot(s: State, d: nat) {
    d < |s.vnodes| && s.vnodes[d].ino == ROOT
  }

  /** Only the root directory's file and inode pointers and size changed. */
  ghost predicate OnlyRoot(s: State, v: Vol, s': State, v': Vol, d: nat)
    requires IsRoot(s, d)
  {
    && |s'.disk| == |s.disk|
    && |s'.vnodes| == |s.vnodes| && s'.vnodes == s.vnodes[d := s'.vnodes[d]]
    && s'.vnodes[d].ino == ROOT && s'.vnodes[d].refcount == s.vnodes[d].refcount
    && ROOT in v.files && ROOT in v'.files && v'.files == v.files[ROOT := v'.files[ROOT]]
    && Contents(v') == Contents(v)[ROOT := Content(v'.files[ROOT], v'.disk)]
  }

  lemma ReadWhole(s: State, v: Vol, d: nat, o: nat, u: Uio, u': Uio, t: nat, r: Status)
    requires IsRoot(s, d) && ROOT in v.files && ReadDone(s, v, d, u, u', t, r)
    requires u == Uio(Read, o, DIRENTSIZE, Zeros(DIRENTSIZE), 0)
    requires o + DIRENTSIZE <= s.vnodes[d].inode.size <= MAXFILEBYTES
    ensures r.Success? && u'.resid == 0 && u'.buf == Content(v.files[ROOT], v.disk)[o..o + DIRENTSIZE]
  {
    SumOffT(o, DIRENTSIZE);
    assert Wanted(s.vnodes[d].inode.size, u) == DIRENTSIZE;
    assert Contents(v)[ROOT] == Content(v.files[ROOT], v.disk);
  }

  /** sfs_readdir: the entry in slot i; a directory never ends within an entry. */
  method ReadDir(fs: Sfs, d: nat, i: nat) returns (e: Dirent)
    requires fs.Valid() && IsRoot(fs.s, d) && DirOk(fs.vol) && i < |DirSlots(fs.vol)|
    modifies fs
    ensures fs.s == old(fs.s) && fs.vol == old(fs.vol) && e == DirSlots(fs.vol)[i] && |e.field| == NAMELEN
  {
    ghost var c, size := Content(fs.vol.files[ROOT], fs.vol.disk), fs.vol.files[ROOT].size;
    var u := Uio(Read, DIRENTSIZE * i, DIRENTSIZE, Zeros(DIRENTSIZE), 0);
    SlotsAt(c, size / DIRENTSIZE, i);
    var r, u', t := fs.Io(d, u);
    ReadWhole(fs.s, fs.vol, d, DIRENTSIZE * i, u, u', t, r);
    assert r.Success? && u'.resid == 0;
    e := DecodeDirent(u'.buf);
  }

  lemma ZeroSlot(e: seq<Byte>, skip: nat)
    requires skip + DIRENTSIZE <= BLOCKSIZE && e == Zero[skip..skip + DIRENTSIZE]
    ensures |e| == DIRENTSIZE && DecodeDirent(e).ino == 0
  {
    assert e[0] == Zero[skip] && e[1] == Zero[skip + 1] && e[2] == Zero[skip + 2] && e[3] == Zero[skip + 3];
  }

  /** A hole reads as a free slot. */
  lemma HoleSlotFree(ip: Inode, d: seq<Block>, i: nat)
    requires DIRENTSIZE * (i + 1) <= MAXFILEBYTES
    requires var f := DIRENTSIZE * i / BLOCKSIZE; f < MAXFILEBLOCKS && FilePtr(ip, d, f) == 0
    ensures Slot(Content(ip, d), i).ino == 0
  {
    var o := DIRENTSIZE * i;
    var (f, skip) := (o / BLOCKSIZE, o % BLOCKSIZE);
    SlotInBlock(i);
    BlockOfContent(ip, d, f, skip, DIRENTSIZE);
    assert f * BLOCKSIZE + skip == o && FileBlock(ip, d, f) == Zero;
    ZeroSlot(Content(ip, d)[o..o + DIRENTSIZE], skip);
  }

  /** So a slot in use lies in a mapped block. */
  lemma UsedSlotMapped(ip: Inode, d: seq<Block>, i: nat)
    requires DIRENTSIZE * (i + 1) <= MAXFILEBYTES && Slot(Content(ip, d), i).ino != 0
    ensures var f := DIRENTSIZE * i / BLOCKSIZE; f < MAXFILEBLOCKS && FilePtr(ip, d, f) != 0
  {
    var f := DIRENTSIZE * i / BLOCKSIZE;
    assert f < MAXFILEBLOCKS;
    if FilePtr(ip, d, f) == 0 {
      HoleSlotFree(ip, d, i);
    }
  }

  /** The slots after writing entry e at slot i. */
  ghost function Written(es: seq<Dirent>, i: nat, e: Dirent): seq<Dirent>
    requires i <= |es|
  {
    if i < |es| then es[i := e] else es + [e]
  }

  /** An entry never crosses a block boundary. */
  lemma SlotInBlock(i: nat)
    ensures DIRENTSIZE * i % BLOCKSIZE + DIRENTSIZE <= BLOCKSIZE
  {
    assert 64 * i % 512 == 64 * (i % 8);
  }

  /** How far writing slot i makes the directory reach. */
  lemma SlotReach(size: nat, i: nat)
    requires size % DIRENTSIZE == 0 && i <= size / DIRENTSIZE
    ensures var size' := Max(size, DIRENTSIZE * (i + 1));
            && size' % DIRENTSIZE == 0
            && size' / DIRENTSIZE == (if i < size / DIRENTSIZE then size / DIRENTSIZE else i + 1)
            && Max(size, DIRENTSIZE * i) == size
  {}

  lemma SlotsWritten(c: seq<Byte>, c': seq<Byte>, size: nat, size': nat, i: nat, e: Dirent)
    requires |c| == |c'| == MAXFILEBYTES && size % DIRENTSIZE == 0 && size <= MAXFILEBYTES && i <= size / DIRENTSIZE
    requires |e.field| == NAMELEN && DIRENTSIZE * (i + 1) <= MAXFILEBYTES && size' == Max(size, DIRENTSIZE * (i + 1))
    requires c' == Splice(c, DIRENTSIZE * i, EncodeDirent(e))
    ensures size' % DIRENTSIZE == 0 && size' <= MAXFILEBYTES
    ensures Slots(c', size' / DIRENTSIZE) == Written(Slots(c, size / DIRENTSIZE), i, e)
  {
    SlotReach(size, i);
    SpliceSlot(c, size / DIRENTSIZE, i, e);
  }

  /** What a finished write of one entry means for the directory. */
  lemma WroteSlot(s: State, v: Vol, s': State, v': Vol, d: nat, i: nat, e: Dirent, u: Uio, u': Uio, t: nat)
    requires Sound(s, v) && Sound(s', v') && IsRoot(s, d) && DirOk(v) && i <= |DirSlots(v)| && |e.field| == NAMELEN
    requires u == Uio(Write, DIRENTSIZE * i, DIRENTSIZE, EncodeDirent(e), 0)
    requires WriteDone(s, v, s', v', d, u, u', t) && (t == 0 || t == DIRENTSIZE)
    ensures OnlyRoot(s, v, s', v', d) && DirOk(v')
    ensures t == 0 ==> DirSlots(v') == DirSlots(v)
    ensures t == DIRENTSIZE ==> DirSlots(v') == Written(DirSlots(v), i, e)
  {
    var (c, c', size) := (Content(v.files[ROOT], v.disk), Content(v'.files[ROOT], v'.disk), v.files[ROOT].size);
    assert c == Contents(v)[ROOT] && c' == Contents(v')[ROOT];
    SlotReach(size, i);
    SizeIsMax(size, u'.offset);
    if t == DIRENTSIZE {
      assert u'.offset == DIRENTSIZE * (i + 1);
      assert u.buf[0..DIRENTSIZE] == u.buf;
      SlotsWritten(c, c', size, v'.files[ROOT].size, i, e);
    } else {
      assert u'.offset == DIRENTSIZE * i;
    }
  }

  /** sfs_writedir: one entry, all or nothing; overwriting an entry in use cannot fail. */
  method WriteDir(fs: Sfs, d: nat, i: nat, e: Dirent) returns (r: Status)
    requires fs.Valid() && IsRoot(fs.s, d) && DirOk(fs.vol) && i <= |DirSlots(fs.vol)| && |e.field| == NAMELEN
    modifies fs
    ensures fs.Valid() && OnlyRoot(old(fs.s), old(fs.vol), fs.s, fs.vol, d) && DirOk(fs.vol)
    ensures r.Success? ==> DirSlots(fs.vol) == Written(old(DirSlots(fs.vol)), i, e)
    ensures r.Fail? ==> DirSlots(fs.vol) == old(DirSlots(fs.vol))
    ensures i < |old(DirSlots(fs.vol))| && old(DirSlots(fs.vol))[i].ino != 0 ==> r.Success?
    ensures r == Fail(EINVAL) <==> i == MAXSLOTS
    ensures r.Fail? && r.error != EINVAL ==> r.error == ENOSPC && NoSpace(fs.vol) && GrewByOne(old(fs.vol), fs.vol)
  {
    ghost var size := fs.vol.files[ROOT].size;
    var u := Uio(Write, DIRENTSIZE * i, DIRENTSIZE, EncodeDirent(e), 0);
    SlotInBlock(i);
    if i < size / DIRENTSIZE && DirSlots(fs.vol)[i].ino != 0 {
      SlotsAt(Content(fs.vol.files[ROOT], fs.vol.disk), size / DIRENTSIZE, i);
      UsedSlotMapped(fs.vol.files[ROOT], fs.vol.disk, i);
      assert InMappedBlock(fs.s, d, u);
    }
    ghost var t;
    var u';
    r, u', t := fs.Io(d, u);
    WroteSlot(old(fs.s), old(fs.vol), fs.s, fs.vol, d, i, e, u, u', t);
    assert r.Success? ==> u'.resid == 0;
  }

  /** No slot is free. */
  predicate AllUsed(es: seq<Dirent>) {
    forall i | 0 <= i < |es| :: es[i].ino != 0
  }

  /** What a search of the slots es for a name reports. */
  ghost predicate FoundIn(es: seq<Dirent>, name: seq<Byte>, found: bool, ino: Word, slot: nat, empty: int)
    requires WellFormed(es)
  {
    && (found ==> Names(es, slot, name) && es[slot].ino == ino)
    && (!found ==> forall i: nat {:trigger Names(es, i, name)} :: !Names(es, i, name))
    && -1 <= empty < |es| && (empty >= 0 ==> es[empty].ino == 0) && (empty < 0 ==> AllUsed(es))
  }

  /** What the search knows after the first n slots. */
  ghost predicate Searched(es: seq<Dirent>, n: nat, name: seq<Byte>, found: bool, ino: Word, slot: nat, empty: int)
    requires WellFormed(es)
  {
    && n <= |es| && (found ==> slot < n && Names(es, slot, name) && es[slot].ino == ino)
    && (!found ==> forall k: nat {:trigger Names(es, k, name)} | k < n :: !Names(es, k, name))
    && -1 <= empty < n && (empty >= 0 ==> es[empty].ino == 0)
    && (empty < 0 ==> forall k {:trigger es[k].ino} | 0 <= k < n :: es[k].ino != 0)
  }

  /** A slot that is free, one that has the name, and one that has not; the name is not found twice. */
  lemma SearchOn(es: seq<Dirent>, n: nat, name: seq<Byte>, found: bool, ino: Word, slot: nat, empty: int)
    requires WellFormed(es) && DistinctNames(es) && n < |es| && Searched(es, n, name, found, ino, slot, empty)
    ensures es[n].ino == 0 ==> Searched(es, n + 1, name, found, ino, slot, n)
    ensures es[n].ino != 0 && NameOf(es[n]) == name ==> !found && Searched(es, n + 1, name, true, es[n].ino, n, empty)
    ensures es[n].ino != 0 && NameOf(es[n]) != name ==> Searched(es, n + 1, name, found, ino, slot, empty)
  {
    assert Names(es, n, name) <==> es[n].ino != 0 && NameOf(es[n]) == name;
  }

  /** sfs_dir_findname: the slot with the name, and some free slot if there is one. */
  method FindName(fs: Sfs, d: nat, name: seq<Byte>) returns (found: bool, ino: Word, slot: nat, empty: int)
    requires fs.Valid() && IsRoot(fs.s, d) && DirOk(fs.vol) && IsName(name)
    requires WellFormed(DirSlots(fs.vol)) && DistinctNames(DirSlots(fs.vol))
    modifies fs
    ensures fs.s == old(fs.s) && fs.vol == old(fs.vol)
    ensures FoundIn(DirSlots(fs.vol), name, found, ino, slot, empty)
    ensures found ==> ino != 0
  {
    ghost var es := DirSlots(fs.vol);
    var size := fs.s.vnodes[d].inode.size;
    assert size % DIRENTSIZE == 0;
    found, ino, slot, empty := false, 0, 0, -1;
    for i := 0 to size / DIRENTSIZE
      invariant fs.s == old(fs.s) && fs.vol == old(fs.vol)
      invariant Searched(es, i, name, found, ino, slot, empty)
    {
      SearchOn(es, i, name, found, ino, slot, empty);
      var e := ReadDir(fs, d, i);
      if e.ino == 0 {
        empty := i;
      } else if NameOf(e) == name {
        assert !found;
        found, slot, ino := true, i, e.ino;
      }
    }
  }

  lemma LookedUp(es: seq<Dirent>, name: seq<Byte>, found: bool, slot: nat)
    requires WellFormed(es) && DistinctNames(es)
    requires found ==> Names(es, slot, name)
    requires !found ==> forall k: nat {:trigger Names(es, k, name)} :: !Names(es, k, name)
    ensures found <==> name in Bindings(es)
    ensures found ==> Bindings(es)[name] == es[slot].ino
  {
    if found {
      Bound(es, slot, name);
    } else if name in Bindings(es) {
      var k := SlotOf(es, name);
    }
  }

  /** What sfs_dir_link answers to a new name, space permitting. */
  ghost function Refusal(es: seq<Dirent>, name: seq<Byte>): Status
    requires WellFormed(es)
  {
    if name in Bindings(es) then Fail(EEXIST)
    else if |name| >= NAMELEN then Fail(ENAMETOOLONG)
    else if |es| == MAXSLOTS && AllUsed(es) then Fail(EINVAL)
    else Success
  }

  /** A link is refused for its name or for want of a slot, fails for want of a block, or succeeds. */
  ghost predicate LinkOutcome(v: Vol, v': Vol, name: seq<Byte>, r: Status)
    requires DirOk(v) && WellFormed(DirSlots(v))
  {
    var answer := Refusal(DirSlots(v), name);
    r == answer || (answer.Success? && r == Fail(ENOSPC) && NoSpace(v') && GrewByOne(v, v'))
  }

  /** The outcome of a link that changed no owner since, or that succeeded. */
  lemma OutcomeOn(v: Vol, w: Vol, w': Vol, name: seq<Byte>, r: Status)
    requires DirOk(v) && WellFormed(DirSlots(v)) && LinkOutcome(v, w, name, r)
    requires r.Success? || (w'.owner == w.owner && |w'.disk| == |w.disk|)
    ensures LinkOutcome(v, w', name, r) && r != Fail(ENOENT)
  {
    if r.Fail? {
      GrewOn(v, w, w');
    }
  }

  /** sfs_dir_link: adds one entry, or reports why not and leaves the slots alone. */
  method DirLink(fs: Sfs, d: nat, name: seq<Byte>, ino: Word) returns (r: Status, slot: nat)
    requires fs.Valid() && IsRoot(fs.s, d) && DirOk(fs.vol) && IsName(name) && ino != 0
    requires WellFormed(DirSlots(fs.vol)) && DistinctNames(DirSlots(fs.vol))
    modifies fs
    ensures fs.Valid() && OnlyRoot(old(fs.s), old(fs.vol), fs.s, fs.vol, d) && DirOk(fs.vol)
    ensures var (es, es') := (old(DirSlots(fs.vol)), DirSlots(fs.vol));
            && (r.Fail? ==> es' == es)
            && (r.Success? ==> slot <= |es| && (slot < |es| ==> es[slot].ino == 0)
                               && |name| < NAMELEN && es' == Written(es, slot, Dirent(ino, NameField(name))))
    ensures LinkOutcome(old(fs.vol), fs.vol, name, r)
  {
    var found, i, k, empty := FindName(fs, d, name);
    LookedUp(DirSlots(fs.vol), name, found, k);
    slot := if empty < 0 then fs.s.vnodes[d].inode.size / DIRENTSIZE else empty;
    NothingWritten(fs.s, fs.vol, d);
    if found {
      return Fail(EEXIST), slot;
    }
    if |name| + 1 > NAMELEN {
      return Fail(ENAMETOOLONG), slot;
    }
    r := WriteDir(fs, d, slot, Dirent(ino, NameField(name)));
  }

  lemma NothingWritten(s: State, v: Vol, d: nat)
    requires Sound(s, v) && IsRoot(s, d) && ROOT in v.files
    ensures OnlyRoot(s, v, s, v, d)
  {
    assert v.files == v.files[ROOT := v.files[ROOT]];
  }

  const FreeEntry: Dirent := Dirent(0, Zeros(NAMELEN))

  /** sfs_dir_unlink of a slot in use: it cannot fail. */
  method DirUnlink(fs: Sfs, d: nat, slot: nat)
    requires fs.Valid() && IsRoot(fs.s, d) && DirOk(fs.vol)
    requires slot < |DirSlots(fs.vol)| && DirSlots(fs.vol)[slot].ino != 0
    modifies fs
    ensures fs.Valid() && OnlyRoot(old(fs.s), old(fs.vol), fs.s, fs.vol, d) && DirOk(fs.vol)
    ensures DirSlots(fs.vol) == old(DirSlots(fs.vol))[slot := FreeEntry]
  {
    var r := WriteDir(fs, d, slot, FreeEntry);
    assert r.Success?;
  }
}
