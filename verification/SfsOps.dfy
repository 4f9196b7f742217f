/**
 The operations a mounted SFS offers (sfs_vnode.c: sfs_lookup, sfs_creat,
 sfs_link, sfs_remove, sfs_rename, sfs_read, sfs_write, sfs_truncate, and the
 dropping of references), and the invariant of the name space that each keeps.
 */
module SfsOps {
  import Basics
  import opened SfsLayout
  import opened SfsVolume
  import opened SfsVnode
  import opened SfsTable
  import opened SfsNames
  import opened SfsDir

  // ---- The name space --------------------------------------------------

  /** A regular file's link count is the number of slots naming it; without links it lives only while loaded. */
  ghost predicate FileOk(files: map<nat, Inode>, es: seq<Dirent>, loaded: set<nat>, ino: nat)
    requires ino in files
  {
    && files[ino].kind == TYPE_FILE && files[ino].size < 0x8000_0000
    && files[ino].links == Links(es, ino) && (files[ino].links > 0 || ino in loaded)
  }

  /** A slot in use names a live regular file. */
  ghost predicate SlotOk(files: map<nat, Inode>, es: seq<Dirent>, i: nat)
    requires i < |es|
  {
    es[i].ino != 0 ==> es[i].ino in files && es[i].ino != ROOT
  }

  ghost predicate TableOk(files: map<nat, Inode>, es: seq<Dirent>, loaded: set<nat>) {
    && |es| <= MAXSLOTS && WellFormed(es) && DistinctNames(es)
    && (forall i: nat {:trigger SlotOk(files, es, i)} | i < |es| :: SlotOk(files, es, i))
    && (forall ino {:trigger FileOk(files, es, loaded, ino)} | ino in files && ino != ROOT ::
          FileOk(files, es, loaded, ino))
  }

  ghost predicate NameSpace(v: Vol, loaded: set<nat>) {
    DirOk(v) && TableOk(v.files, DirSlots(v), loaded)
  }

  /** The names of the volume. */
  ghost function NamesOf(v: Vol): map<seq<Byte>, nat>
    requires DirOk(v) && WellFormed(DirSlots(v))
  {
    Bindings(DirSlots(v))
  }

  /** Live inodes are exactly the root, the loaded and the named ones: the rule of deferred deletion. */
  lemma LiveInodes(s: State, v: Vol, ino: nat)
    requires Sound(s, v) && NameSpace(v, Loaded(s.vnodes))
    ensures ino in v.files <==>
              ino == ROOT || ino in Loaded(s.vnodes)
              || (ino != 0 && exists i: nat :: i < |DirSlots(v)| && DirSlots(v)[i].ino == ino)
  {
    var (es, loaded) := (DirSlots(v), Loaded(s.vnodes));
    if ino in v.files && ino != ROOT && ino !in loaded {
      assert FileOk(v.files, es, loaded, ino);
      InodeOnDevice(s, v, ino);
      if forall i: nat | i < |es| :: es[i].ino != ino {
        LinksNone(es, ino);
      }
    }
    if i: nat :| ino != 0 && i < |es| && es[i].ino == ino {
      assert SlotOk(v.files, es, i);
    }
  }

  /** A link count fits its 16 bits: it is at most the number of slots. */
  lemma LinksFit(v: Vol, loaded: set<nat>, ino: nat)
    requires NameSpace(v, loaded) && ino in v.files && ino != ROOT
    ensures v.files[ino].links <= MAXSLOTS
  {
    assert FileOk(v.files, DirSlots(v), loaded, ino);
    LinksBound(DirSlots(v), ino);
  }

  // ---- Changes to the name space ---------------------------------------

  /** The root's own inode does not matter to the table. */
  lemma TableFrame(files: map<nat, Inode>, files': map<nat, Inode>, es: seq<Dirent>, loaded: set<nat>)
    requires TableOk(files, es, loaded) && ROOT in files && ROOT in files' && files' == files[ROOT := files'[ROOT]]
    ensures TableOk(files', es, loaded)
  {
    forall i: nat | i < |es|
      ensures SlotOk(files', es, i)
    {
      assert SlotOk(files, es, i);
    }
    forall ino | ino in files' && ino != ROOT
      ensures FileOk(files', es, loaded, ino)
    {
      assert FileOk(files, es, loaded, ino);
    }
  }

  /** Changing a regular file but not its type or link count. */
  lemma TableFile(files: map<nat, Inode>, es: seq<Dirent>, loaded: set<nat>, ino: nat, ip: Inode)
    requires TableOk(files, es, loaded) && ino in files && ino != ROOT
    requires ip.kind == files[ino].kind && ip.links == files[ino].links && ip.size < 0x8000_0000
    ensures TableOk(files[ino := ip], es, loaded)
  {
    var files' := files[ino := ip];
    forall i: nat | i < |es|
      ensures SlotOk(files', es, i)
    {
      assert SlotOk(files, es, i);
    }
    forall j | j in files' && j != ROOT
      ensures FileOk(files', es, loaded, j)
    {
      assert FileOk(files, es, loaded, j);
    }
  }

  /** A longer list of loaded inodes does no harm. */
  lemma TableLoad(files: map<nat, Inode>, es: seq<Dirent>, loaded: set<nat>, loaded': set<nat>)
    requires TableOk(files, es, loaded) && loaded <= loaded'
    ensures TableOk(files, es, loaded')
  {
    forall j | j in files && j != ROOT
      ensures FileOk(files, es, loaded', j)
    {
      assert FileOk(files, es, loaded, j);
    }
  }

  /** Unloading the root or a file with links. */
  lemma TableUnload(files: map<nat, Inode>, es: seq<Dirent>, loaded: set<nat>, ino: nat)
    requires TableOk(files, es, loaded) && ino in files && (ino == ROOT || files[ino].links > 0)
    ensures TableOk(files, es, loaded - {ino})
  {
    forall j | j in files && j != ROOT
      ensures FileOk(files, es, loaded - {ino}, j)
    {
      assert FileOk(files, es, loaded, j);
    }
  }

  /** Forgetting a file without links: no slot names it. */
  lemma TableForget(files: map<nat, Inode>, es: seq<Dirent>, loaded: set<nat>, ino: nat)
    requires TableOk(files, es, loaded) && ino in files && ino != ROOT && files[ino].links == 0
    ensures TableOk(files - {ino}, es, loaded - {ino})
  {
    assert FileOk(files, es, loaded, ino);
    var (files', loaded') := (files - {ino}, loaded - {ino});
    forall i: nat | i < |es|
      ensures SlotOk(files', es, i)
    {
      assert SlotOk(files, es, i);
      if es[i].ino == ino {
        LinksSome(es, i);
      }
    }
    forall j | j in files' && j != ROOT
      ensures FileOk(files', es, loaded', j)
    {
      assert FileOk(files, es, loaded, j);
    }
  }

  /** A new file without links, loaded. */
  lemma TableNew(files: map<nat, Inode>, es: seq<Dirent>, loaded: set<nat>, ino: nat, ip: Inode)
    requires TableOk(files, es, loaded) && ino !in files && ino != 0 && ip.kind == TYPE_FILE && ip.links == 0
    requires ip.size == 0
    ensures TableOk(files[ino := ip], es, loaded + {ino})
  {
    var (files', loaded') := (files[ino := ip], loaded + {ino});
    forall i: nat | i < |es|
      ensures SlotOk(files', es, i) && es[i].ino != ino
    {
      assert SlotOk(files, es, i);
    }
    LinksNone(es, ino);
    forall j | j in files' && j != ROOT
      ensures FileOk(files', es, loaded', j)
    {
      assert j != ino ==> FileOk(files, es, loaded, j);
    }
  }

  lemma LinksWritten(es: seq<Dirent>, k: nat, e: Dirent, ino: nat)
    requires k <= |es| && (k < |es| ==> es[k].ino == 0) && ino != 0
    ensures Links(Written(es, k, e), ino) == Links(es, ino) + if e.ino == ino then 1 else 0
  {
    if k < |es| {
      LinksUpdate(es, k, e, ino);
    } else {
      LinksAppend(es, e, ino);
    }
  }

  /** There is room for one more link, and a named file has one. */
  lemma LinkRange(files: map<nat, Inode>, es: seq<Dirent>, loaded: set<nat>, ino: nat)
    requires TableOk(files, es, loaded) && ino in files && ino != ROOT
    ensures files[ino].kind == TYPE_FILE && files[ino].links <= |es|
    ensures forall k: nat | k < |es| && es[k].ino == ino :: files[ino].links > 0
  {
    assert FileOk(files, es, loaded, ino);
    LinksBound(es, ino);
    forall k: nat | k < |es| && es[k].ino == ino
      ensures files[ino].links > 0
    {
      LinksSome(es, k);
    }
  }

  /** A new entry together with one more link on its file. */
  lemma TableLink(files: map<nat, Inode>, es: seq<Dirent>, loaded: set<nat>, k: nat, name: seq<Byte>, ino: Word,
                  ip: Inode)
    requires TableOk(files, es, loaded) && ino in files && ino != ROOT && 0 !in files
    requires IsName(name) && |name| < NAMELEN
    requires forall i: nat {:trigger Names(es, i, name)} | i < |es| :: !Names(es, i, name)
    requires k <= |es| && (k < |es| ==> es[k].ino == 0)
    requires |Written(es, k, Dirent(ino, NameField(name)))| <= MAXSLOTS
    requires ip.kind == files[ino].kind && ip.links == files[ino].links + 1 && ip.size == files[ino].size
    ensures var es' := Written(es, k, Dirent(ino, NameField(name)));
            Bindings(es') == Bindings(es)[name := ino] && TableOk(files[ino := ip], es', loaded)
  {
    var e := Dirent(ino, NameField(name));
    var es' := Written(es, k, e);
    NameOfNewEntry(ino, name);
    LinkBinds(es, es', k, e, name);
    var files' := files[ino := ip];
    forall i: nat | i < |es'|
      ensures SlotOk(files', es', i)
    {
      assert i != k ==> SlotOk(files, es, i);
    }
    forall j | j in files' && j != ROOT
      ensures FileOk(files', es', loaded, j)
    {
      assert FileOk(files, es, loaded, j);
      LinksWritten(es, k, e, j);
    }
  }

  /** Freeing a slot together with one less link on the loaded file it named. */
  lemma TableUnlink(files: map<nat, Inode>, es: seq<Dirent>, loaded: set<nat>, k: nat, name: seq<Byte>, ip: Inode)
    requires TableOk(files, es, loaded) && Names(es, k, name) && es[k].ino in loaded && es[k].ino in files
    requires 0 !in files
    requires ip.kind == files[es[k].ino].kind && ip.links == files[es[k].ino].links - 1
    requires ip.size == files[es[k].ino].size
    ensures var es' := es[k := FreeEntry];
            Bindings(es') == Bindings(es) - {name} && TableOk(files[es[k].ino := ip], es', loaded)
  {
    var (ino, es') := (es[k].ino, es[k := FreeEntry]);
    assert SlotOk(files, es, k);
    UnlinkBinds(es, k, FreeEntry, name);
    var files' := files[ino := ip];
    forall i: nat | i < |es'|
      ensures SlotOk(files', es', i)
    {
      assert SlotOk(files, es, i);
    }
    forall j | j in files' && j != ROOT
      ensures FileOk(files', es', loaded, j)
    {
      assert FileOk(files, es, loaded, j);
      LinksUpdate(es, k, FreeEntry, j);
    }
  }

  // ---- The mounted file system -----------------------------------------

  /** What holds at every operation boundary. */
  ghost predicate Mounted(fs: Sfs)
    reads fs
  {
    fs.Valid() && NameSpace(fs.vol, Loaded(fs.s.vnodes))
  }

  /** What the regular files hold. */
  ghost function UserData(v: Vol): map<nat, seq<Byte>> {
    Contents(v) - {ROOT}
  }

  lemma NoInodeZero(s: State, v: Vol)
    requires Sound(s, v)
    ensures 0 !in v.files
  {
    if 0 in v.files {
      InodeOnDevice(s, v, 0);
    }
  }

  lemma SameLoaded(xs: seq<Vnode>, ys: seq<Vnode>)
    requires |xs| == |ys| && forall i | 0 <= i < |xs| :: xs[i].ino == ys[i].ino
    ensures Loaded(xs) == Loaded(ys)
  {
    forall ino | ino in Loaded(xs)
      ensures ino in Loaded(ys)
    {
      var i :| 0 <= i < |xs| && xs[i].ino == ino;
      assert ys[i].ino == ino;
    }
    forall ino | ino in Loaded(ys)
      ensures ino in Loaded(xs)
    {
      var i :| 0 <= i < |ys| && ys[i].ino == ino;
      assert xs[i].ino == ino;
    }
  }

  lemma LoadedRemove(xs: seq<Vnode>, files: map<nat, Inode>, i: nat)
    requires CacheOk(xs, files) && i < |xs|
    ensures Loaded(Basics.RemoveAt(xs, i)) == Loaded(xs) - {xs[i].ino}
  {
    var ys := Basics.RemoveAt(xs, i);
    assert forall k | 0 <= k < |ys| :: ys[k] == xs[if k < i then k else k + 1];
    forall ino | ino in Loaded(xs) - {xs[i].ino}
      ensures ino in Loaded(ys)
    {
      var k :| 0 <= k < |xs| && xs[k].ino == ino;
      assert ys[if k < i then k else k - 1].ino == ino;
    }
  }

  /** The directory is the same when the root inode and all contents are. */
  lemma SameDir(v: Vol, w: Vol)
    requires DirOk(v) && ROOT in w.files && w.files[ROOT] == v.files[ROOT]
    requires Content(w.files[ROOT], w.disk) == Content(v.files[ROOT], v.disk)
    ensures DirOk(w) && DirSlots(w) == DirSlots(v)
  {}

  lemma RootContent(v: Vol, w: Vol)
    requires ROOT in v.files && ROOT in w.files && ROOT in Contents(v) && ROOT in Contents(w)
    requires Contents(w)[ROOT] == Contents(v)[ROOT]
    ensures Content(w.files[ROOT], w.disk) == Content(v.files[ROOT], v.disk)
  {}

  /** VOP_DECREF on a mounted file system: the file goes with its last link and its last reference. */
  method Release(fs: Sfs, i: nat)
    requires Mounted(fs) && i < |fs.s.vnodes|
    modifies fs
    ensures Mounted(fs) && DirSlots(fs.vol) == old(DirSlots(fs.vol))
    ensures var (x, ino) := (old(fs.s).vnodes[i], old(fs.s).vnodes[i].ino);
            && Loaded(fs.s.vnodes) ==
                 (if x.refcount > 1 then old(Loaded(fs.s.vnodes)) else old(Loaded(fs.s.vnodes)) - {ino})
            && (x.refcount > 1 || x.inode.links > 0 ==>
                  && fs.vol.files == old(fs.vol).files && UserData(fs.vol) == old(UserData(fs.vol))
                  && fs.vol.owner == old(fs.vol).owner && |fs.vol.disk| == |old(fs.vol).disk|)
            && (x.refcount == 1 && x.inode.links == 0 ==>
                  fs.vol.files == old(fs.vol).files - {ino} && UserData(fs.vol) == old(UserData(fs.vol)) - {ino})
  {
    ghost var x, v, es, loaded := fs.s.vnodes[i], fs.vol, DirSlots(fs.vol), Loaded(fs.s.vnodes);
    LoadedRemove(fs.s.vnodes, v.files, i);
    if x.ino != ROOT && x.inode.links == 0 {
      TableForget(v.files, es, loaded, x.ino);
    } else {
      TableUnload(v.files, es, loaded, x.ino);
    }
    Decref(fs, i);
    if x.refcount > 1 {
      SameLoaded(old(fs.s).vnodes, fs.s.vnodes);
    } else {
      RootContent(v, fs.vol);
      SameDir(v, fs.vol);
    }
  }

  /** sfs_lookonce: the vnode a name stands for, and its slot; a named file has links. */
  method LookOnce(fs: Sfs, d: nat, name: seq<Byte>) returns (found: bool, i: nat, slot: nat)
    requires Mounted(fs) && IsRoot(fs.s, d) && IsName(name)
    modifies fs
    ensures Mounted(fs) && fs.vol == old(fs.vol)
    ensures !found ==>
              fs.s == old(fs.s) && forall k: nat {:trigger Names(DirSlots(fs.vol), k, name)} ::
                !Names(DirSlots(fs.vol), k, name)
    ensures found ==> Names(DirSlots(fs.vol), slot, name)
    ensures found ==> i < |fs.s.vnodes| && i != d && IsRoot(fs.s, d)
    ensures found ==> fs.s.vnodes[i].ino == DirSlots(fs.vol)[slot].ino
    ensures found ==> fs.s.vnodes[i].inode.kind == TYPE_FILE && fs.s.vnodes[i].inode.links > 0
    ensures found ==> Loaded(fs.s.vnodes) == old(Loaded(fs.s.vnodes)) + {fs.s.vnodes[i].ino}
    ensures found ==> (fs.s.vnodes[i].refcount == 1 <==> fs.s.vnodes[i].ino !in old(Loaded(fs.s.vnodes)))
  {
    ghost var es := DirSlots(fs.vol);
    var ino, empty;
    found, ino, slot, empty := FindName(fs, d, name);
    i := 0;
    if !found {
      return;
    }
    assert SlotOk(fs.vol.files, es, slot) && FileOk(fs.vol.files, es, Loaded(fs.s.vnodes), ino);
    LinksSome(es, slot);
    ghost var loaded := Loaded(fs.s.vnodes);
    i := LoadVnode(fs, ino);
    TableLoad(fs.vol.files, es, loaded, Loaded(fs.s.vnodes));
    assert fs.s.vnodes[i].inode == fs.vol.files[ino];
    assert fs.s.vnodes[i].inode.links != 0;
  }

  /** The same vnodes with the same counts; at most the root and inode ino changed, and no regular file's contents. */
  ghost predicate OnlyMeta(s: State, v: Vol, s': State, v': Vol, ino: nat) {
    && |s'.vnodes| == |s.vnodes|
    && (forall k {:trigger s'.vnodes[k]} | 0 <= k < |s.vnodes| ::
          s'.vnodes[k].ino == s.vnodes[k].ino && s'.vnodes[k].refcount == s.vnodes[k].refcount)
    && v'.files.Keys == v.files.Keys
    && (forall j {:trigger v'.files[j]} | j in v.files && j != ROOT && j != ino :: v'.files[j] == v.files[j])
    && UserData(v') == UserData(v)
  }

  lemma SwapUpdates<K, V>(m: map<K, V>, a: K, b: K, x: V, y: V)
    requires a != b
    ensures m[a := x][b := y] == m[b := y][a := x]
  {}

  /** A directory change followed by a change of one vnode's inode. */
  lemma DirThenInode(s: State, v: Vol, s1: State, v1: Vol, s2: State, v2: Vol, d: nat, i: nat, ip: Inode)
    requires IsRoot(s, d) && i < |s.vnodes| && s.vnodes[i].ino != ROOT && s.vnodes[i].ino in v.files
    requires OnlyRoot(s, v, s1, v1, d)
    requires s2.vnodes == SetInode(s1.vnodes, i, ip) && v2.files == v1.files[s.vnodes[i].ino := ip]
    requires Contents(v2) == Contents(v1)
    ensures OnlyMeta(s, v, s2, v2, s.vnodes[i].ino)
    ensures v2.files == v.files[s.vnodes[i].ino := ip][ROOT := v1.files[ROOT]]
    ensures Loaded(s2.vnodes) == Loaded(s.vnodes)
  {
    var ino := s.vnodes[i].ino;
    SwapUpdates(v.files, ROOT, ino, v1.files[ROOT], ip);
    SameLoaded(s.vnodes, s2.vnodes);
    assert UserData(v2) == UserData(v);
  }

  /** sfs_dir_unlink and the decrement that goes with it. */
  method UnlinkAt(fs: Sfs, d: nat, i: nat, slot: nat, ghost name: seq<Byte>)
    requires Mounted(fs) && IsRoot(fs.s, d) && i < |fs.s.vnodes| && Names(DirSlots(fs.vol), slot, name)
    requires fs.s.vnodes[i].ino == DirSlots(fs.vol)[slot].ino
    modifies fs
    ensures Mounted(fs) && DirSlots(fs.vol) == old(DirSlots(fs.vol))[slot := FreeEntry]
    ensures NamesOf(fs.vol) == old(NamesOf(fs.vol)) - {name}
    ensures OnlyMeta(old(fs.s), old(fs.vol), fs.s, fs.vol, old(fs.s).vnodes[i].ino)
    ensures old(fs.s).vnodes[i].inode.links > 0 && fs.s.vnodes[i].inode.links == old(fs.s).vnodes[i].inode.links - 1
  {
    ghost var v, es, loaded, ino := fs.vol, DirSlots(fs.vol), Loaded(fs.s.vnodes), fs.s.vnodes[i].ino;
    NoInodeZero(fs.s, fs.vol);
    assert ino in loaded;
    assert SlotOk(v.files, es, slot);
    LinkRange(v.files, es, loaded, ino);
    DirUnlink(fs, d, slot);
    ghost var s1, v1 := fs.s, fs.vol;
    assert fs.s.vnodes[i] == old(fs.s).vnodes[i];
    assert fs.s.vnodes[i].inode.links > 0;
    var ip := fs.s.vnodes[i].inode.(links := fs.s.vnodes[i].inode.links - 1);
    TableUnlink(v.files, es, loaded, slot, name, ip);
    fs.PutInode(i, ip);
    DirThenInode(old(fs.s), v, s1, v1, fs.s, fs.vol, d, i, ip);
    TableFrame(v.files[ino := ip], fs.vol.files, es[slot := FreeEntry], loaded);
    RootContent(v1, fs.vol);
    SameDir(v1, fs.vol);
  }

  lemma Unbound(es: seq<Dirent>, name: seq<Byte>)
    requires WellFormed(es) && DistinctNames(es) && name !in Bindings(es)
    ensures forall k: nat {:trigger Names(es, k, name)} :: !Names(es, k, name)
  {
    forall k: nat
      ensures !Names(es, k, name)
    {
      if Names(es, k, name) {
        Bound(es, k, name);
      }
    }
  }

  /** sfs_dir_link and the increment that goes with it. */
  method LinkAt(fs: Sfs, d: nat, i: nat, name: seq<Byte>) returns (r: Status, slot: nat)
    requires Mounted(fs) && IsRoot(fs.s, d) && i < |fs.s.vnodes| && fs.s.vnodes[i].ino != ROOT && IsName(name)
    modifies fs
    ensures Mounted(fs) && OnlyMeta(old(fs.s), old(fs.vol), fs.s, fs.vol, old(fs.s).vnodes[i].ino)
    ensures r.Success? ==>
              name !in old(NamesOf(fs.vol)) && NamesOf(fs.vol) == old(NamesOf(fs.vol))[name := old(fs.s).vnodes[i].ino]
    ensures r.Success? ==>
              slot <= |old(DirSlots(fs.vol))|
              && (slot < |old(DirSlots(fs.vol))| ==> old(DirSlots(fs.vol))[slot].ino == 0)
    ensures r.Success? ==>
              |name| < NAMELEN
              && DirSlots(fs.vol) ==
                   Written(old(DirSlots(fs.vol)), slot, Dirent(old(fs.s).vnodes[i].ino, NameField(name)))
    ensures r.Success? ==> fs.s.vnodes[i].inode.links == old(fs.s).vnodes[i].inode.links + 1
    ensures fs.s.vnodes[i].inode.size == old(fs.s).vnodes[i].inode.size
    ensures LinkOutcome(old(fs.vol), fs.vol, name, r)
    ensures r.Fail? ==> DirSlots(fs.vol) == old(DirSlots(fs.vol))
    ensures r.Fail? ==> fs.s.vnodes[i] == old(fs.s).vnodes[i]
  {
    var ino := fs.s.vnodes[i].ino;
    ghost var v, es, loaded := fs.vol, DirSlots(fs.vol), Loaded(fs.s.vnodes);
    NoInodeZero(fs.s, fs.vol);
    LinkRange(v.files, es, loaded, ino);
    r, slot := DirLink(fs, d, name, ino);
    ghost var s1, v1 := fs.s, fs.vol;
    assert fs.s.vnodes[i] == old(fs.s).vnodes[i];
    if r.Fail? {
      FailedLink(old(fs.s), v, fs.s, fs.vol, d, ino);
      return;
    }
    Unbound(es, name);
    var ip := fs.s.vnodes[i].inode.(links := fs.s.vnodes[i].inode.links + 1);
    TableLink(v.files, es, loaded, slot, name, ino, ip);
    fs.PutInode(i, ip);
    DirThenInode(old(fs.s), v, s1, v1, fs.s, fs.vol, d, i, ip);
    TableFrame(v.files[ino := ip], fs.vol.files, Written(es, slot, Dirent(ino, NameField(name))), loaded);
    RootContent(v1, fs.vol);
    SameDir(v1, fs.vol);
  }

  /** A directory write that left the slots alone keeps the name space. */
  lemma FailedLink(s: State, v: Vol, s': State, v': Vol, d: nat, ino: nat)
    requires IsRoot(s, d) && OnlyRoot(s, v, s', v', d) && NameSpace(v, Loaded(s.vnodes)) && DirOk(v')
    requires DirSlots(v') == DirSlots(v)
    ensures NameSpace(v', Loaded(s'.vnodes)) && OnlyMeta(s, v, s', v', ino)
  {
    SameLoaded(s.vnodes, s'.vnodes);
    TableFrame(v.files, v'.files, DirSlots(v), Loaded(s.vnodes));
    assert UserData(v') == UserData(v);
  }

  // ---- Operations ------------------------------------------------------

  /** sfs_lookup. */
  method Lookup(fs: Sfs, d: nat, name: seq<Byte>) returns (r: Result<nat>)
    requires Mounted(fs) && IsRoot(fs.s, d) && IsName(name)
    modifies fs
    ensures Mounted(fs) && fs.vol == old(fs.vol)
    ensures r.Ok? <==> name in NamesOf(fs.vol)
    ensures r.Err? ==> r.error == ENOENT && fs.s == old(fs.s)
    ensures r.Ok? ==> r.value < |fs.s.vnodes| && fs.s.vnodes[r.value].ino == NamesOf(fs.vol)[name]
  {
    var found, i, slot := LookOnce(fs, d, name);
    LookedUp(DirSlots(fs.vol), name, found, slot);
    r := if found then Ok(i) else Err(ENOENT);
  }

  /** sfs_link: one more name for a file, or an error and no change of names. */
  method Link(fs: Sfs, d: nat, name: seq<Byte>, i: nat) returns (r: Status)
    requires Mounted(fs) && IsRoot(fs.s, d) && i < |fs.s.vnodes| && fs.s.vnodes[i].ino != ROOT && IsName(name)
    modifies fs
    ensures Mounted(fs) && UserData(fs.vol) == old(UserData(fs.vol))
    ensures r.Success? ==>
              name !in old(NamesOf(fs.vol)) && NamesOf(fs.vol) == old(NamesOf(fs.vol))[name := old(fs.s).vnodes[i].ino]
    ensures r.Fail? ==> NamesOf(fs.vol) == old(NamesOf(fs.vol))
    ensures LinkOutcome(old(fs.vol), fs.vol, name, r)
  {
    var slot;
    r, slot := LinkAt(fs, d, i, name);
  }

  /** sfs_remove: the name goes; the file goes too if that was its last link and nobody holds it. */
  method Remove(fs: Sfs, d: nat, name: seq<Byte>) returns (r: Status)
    requires Mounted(fs) && IsRoot(fs.s, d) && IsName(name)
    modifies fs
    ensures Mounted(fs)
    ensures r.Success? <==> name in old(NamesOf(fs.vol))
    ensures r.Fail? ==> r.error == ENOENT && fs.s == old(fs.s) && fs.vol == old(fs.vol)
    ensures r.Success? ==>
              var ino := old(NamesOf(fs.vol))[name];
              && NamesOf(fs.vol) == old(NamesOf(fs.vol)) - {name}
              && ino in old(fs.vol).files
              && (old(fs.vol).files[ino].links > 1 || ino in old(Loaded(fs.s.vnodes)) ==>
                    UserData(fs.vol) == old(UserData(fs.vol)) && fs.vol.files.Keys == old(fs.vol).files.Keys)
              && (old(fs.vol).files[ino].links == 1 && ino !in old(Loaded(fs.s.vnodes)) ==>
                    UserData(fs.vol) == old(UserData(fs.vol)) - {ino}
                    && fs.vol.files.Keys == old(fs.vol).files.Keys - {ino})
  {
    var found, i, slot := LookOnce(fs, d, name);
    LookedUp(DirSlots(fs.vol), name, found, slot);
    if !found {
      return Fail(ENOENT);
    }
    ghost var ino := fs.s.vnodes[i].ino;
    assert fs.vol.files[ino] == fs.s.vnodes[i].inode && old(NamesOf(fs.vol))[name] == ino;
    UnlinkAt(fs, d, i, slot, name);
    Release(fs, i);
    return Success;
  }

  /** The old name is still in its slot after another entry was written elsewhere. */
  lemma StillNamed(es: seq<Dirent>, slot: nat, name: seq<Byte>, k: nat, e: Dirent)
    requires WellFormed(es) && Names(es, slot, name) && |e.field| == NAMELEN && k <= |es|
    requires (k < |es| ==> es[k].ino == 0)
    ensures WellFormed(Written(es, k, e)) && Names(Written(es, k, e), slot, name) && Written(es, k, e)[slot] == es[slot]
  {}

  lemma AddThenRemove<K, V>(m: map<K, V>, a: K, b: K, x: V)
    requires a != b
    ensures m[b := x] - {a} == (m - {a})[b := x]
  {}

  /** sfs_rename: one binding moves to the new name; everything else, and the link count, stays. */
  method Rename(fs: Sfs, d: nat, n1: seq<Byte>, n2: seq<Byte>) returns (r: Status)
    requires Mounted(fs) && IsRoot(fs.s, d) && IsName(n1) && IsName(n2)
    modifies fs
    ensures Mounted(fs) && UserData(fs.vol) == old(UserData(fs.vol)) && fs.vol.files.Keys == old(fs.vol).files.Keys
    ensures SameLinks(old(fs.vol).files, fs.vol.files)
    ensures r.Success? ==>
              && n1 in old(NamesOf(fs.vol)) && n2 !in old(NamesOf(fs.vol))
              && NamesOf(fs.vol) == (old(NamesOf(fs.vol)) - {n1})[n2 := old(NamesOf(fs.vol))[n1]]
    ensures r.Fail? ==> NamesOf(fs.vol) == old(NamesOf(fs.vol))
    ensures r == Fail(ENOENT) <==> n1 !in old(NamesOf(fs.vol))
    ensures n1 in old(NamesOf(fs.vol)) ==> LinkOutcome(old(fs.vol), fs.vol, n2, r)
  {
    ghost var es, names := DirSlots(fs.vol), NamesOf(fs.vol);
    var found, i, slot1 := LookOnce(fs, d, n1);
    LookedUp(es, n1, found, slot1);
    if !found {
      return Fail(ENOENT);
    }
    assert fs.s.vnodes[i].inode.kind == TYPE_FILE;
    r := MoveEntry(fs, d, i, slot1, n1, n2);
    ghost var v1 := fs.vol;
    Release(fs, i);
    OutcomeOn(old(fs.vol), v1, fs.vol, n2, r);
  }

  /** The unlinking half of sfs_rename: the slot of the old name is still its slot after the new entry e is written. */
  method UnlinkOld(fs: Sfs, d: nat, i: nat, slot1: nat, ghost n1: seq<Byte>, ghost es: seq<Dirent>, ghost slot2: nat,
                   ghost e: Dirent)
    requires Mounted(fs) && IsRoot(fs.s, d) && i < |fs.s.vnodes| && |e.field| == NAMELEN && slot2 <= |es|
    requires WellFormed(es) && Names(es, slot1, n1) && fs.s.vnodes[i].ino == es[slot1].ino
    requires (slot2 < |es| ==> es[slot2].ino == 0) && DirSlots(fs.vol) == Written(es, slot2, e)
    modifies fs
    ensures Mounted(fs) && NamesOf(fs.vol) == old(NamesOf(fs.vol)) - {n1}
    ensures OnlyMeta(old(fs.s), old(fs.vol), fs.s, fs.vol, old(fs.s).vnodes[i].ino)
    ensures fs.s.vnodes[i].inode.links == old(fs.s).vnodes[i].inode.links - 1
  {
    StillNamed(es, slot1, n1, slot2, e);
    UnlinkAt(fs, d, i, slot1, n1);
  }

  /** sfs_rename between its lookup and the dropping of its reference: link, then unlink. */
  method LinkThenUnlink(fs: Sfs, d: nat, i: nat, slot1: nat, ghost n1: seq<Byte>, n2: seq<Byte>) returns (r: Status)
    requires Mounted(fs) && IsRoot(fs.s, d) && i < |fs.s.vnodes| && fs.s.vnodes[i].ino != ROOT && IsName(n2)
    requires Names(DirSlots(fs.vol), slot1, n1) && fs.s.vnodes[i].ino == DirSlots(fs.vol)[slot1].ino
    modifies fs
    ensures Mounted(fs) && OnlyMeta(old(fs.s), old(fs.vol), fs.s, fs.vol, old(fs.s).vnodes[i].ino)
    ensures fs.s.vnodes[i].inode.links == old(fs.s).vnodes[i].inode.links
    ensures r.Success? ==>
              n2 !in old(NamesOf(fs.vol))
              && NamesOf(fs.vol) == old(NamesOf(fs.vol))[n2 := old(fs.s).vnodes[i].ino] - {n1}
    ensures r.Fail? ==> NamesOf(fs.vol) == old(NamesOf(fs.vol))
    ensures LinkOutcome(old(fs.vol), fs.vol, n2, r)
  {
    ghost var es, ino := DirSlots(fs.vol), fs.s.vnodes[i].ino;
    var slot2;
    r, slot2 := LinkAt(fs, d, i, n2);
    if r.Fail? {
      return;
    }
    ghost var s1, v1 := fs.s, fs.vol;
    UnlinkOld(fs, d, i, slot1, n1, es, slot2, Dirent(ino, NameField(n2)));
    OutcomeOn(old(fs.vol), v1, fs.vol, n2, r);
    MetaTwice(old(fs.s), old(fs.vol), s1, v1, fs.s, fs.vol, ino);
  }

  method MoveEntry(fs: Sfs, d: nat, i: nat, slot1: nat, ghost n1: seq<Byte>, n2: seq<Byte>) returns (r: Status)
    requires Mounted(fs) && IsRoot(fs.s, d) && i < |fs.s.vnodes| && fs.s.vnodes[i].ino != ROOT && IsName(n2)
    requires Names(DirSlots(fs.vol), slot1, n1) && fs.s.vnodes[i].ino == DirSlots(fs.vol)[slot1].ino
    modifies fs
    ensures Mounted(fs) && OnlyMeta(old(fs.s), old(fs.vol), fs.s, fs.vol, old(fs.s).vnodes[i].ino)
    ensures fs.s.vnodes[i].inode.links == old(fs.s).vnodes[i].inode.links > 0
    ensures SameLinks(old(fs.vol).files, fs.vol.files)
    ensures n1 in old(NamesOf(fs.vol)) && old(NamesOf(fs.vol))[n1] == old(fs.s).vnodes[i].ino
    ensures r.Success? ==> n2 !in old(NamesOf(fs.vol))
                           && NamesOf(fs.vol) == (old(NamesOf(fs.vol)) - {n1})[n2 := old(NamesOf(fs.vol))[n1]]
    ensures r.Fail? ==> NamesOf(fs.vol) == old(NamesOf(fs.vol))
    ensures LinkOutcome(old(fs.vol), fs.vol, n2, r)
  {
    ghost var es, names, ino := DirSlots(fs.vol), NamesOf(fs.vol), fs.s.vnodes[i].ino;
    Bound(es, slot1, n1);
    LinkRange(fs.vol.files, es, Loaded(fs.s.vnodes), ino);
    r := LinkThenUnlink(fs, d, i, slot1, n1, n2);
    if r.Success? {
      AddThenRemove(names, n1, n2, ino);
    }
    MetaLinks(old(fs.s), old(fs.vol), fs.s, fs.vol, ino);
  }

  lemma MetaLinks(s: State, v: Vol, s': State, v': Vol, ino: nat)
    requires OnlyMeta(s, v, s', v', ino) && ino in v.files && v'.files[ino].links == v.files[ino].links
    ensures SameLinks(v.files, v'.files)
  {}

  /** No regular file's link count changed. */
  ghost predicate SameLinks(files: map<nat, Inode>, files': map<nat, Inode>) {
    forall ino {:trigger files'[ino]} | ino in files && ino != ROOT ::
      ino in files' && files'[ino].links == files[ino].links
  }

  lemma MetaTwice(s: State, v: Vol, s1: State, v1: Vol, s2: State, v2: Vol, ino: nat)
    requires OnlyMeta(s, v, s1, v1, ino) && OnlyMeta(s1, v1, s2, v2, ino)
    ensures OnlyMeta(s, v, s2, v2, ino)
  {
    forall k | 0 <= k < |s.vnodes|
      ensures s2.vnodes[k].ino == s.vnodes[k].ino && s2.vnodes[k].refcount == s.vnodes[k].refcount
    {
      assert s1.vnodes[k].ino == s.vnodes[k].ino;
    }
    forall j | j in v.files && j != ROOT && j != ino
      ensures v2.files[j] == v.files[j]
    {
      assert v1.files[j] == v.files[j];
    }
  }

  ghost predicate OnlyFree(v: Vol, x: nat, y: nat) {
    forall b: nat {:trigger b in v.owner} | b < |v.disk| :: b in v.owner || b == x || b == y
  }

  ghost predicate AtMostTwoFree(v: Vol) {
    exists x: nat, y: nat :: OnlyFree(v, x, y)
  }

  /**
   How sfs_creat ends for a name that does not exist: without a block for the
   inode it is ENOSPC; else the link decides, which can want for a block only
   if no more than the inode's block and one other were free.
   */
  ghost predicate CreateOutcome(v: Vol, name: seq<Byte>, r: Status)
    requires DirOk(v) && WellFormed(DirSlots(v))
  {
    var answer := Refusal(DirSlots(v), name);
    if NoSpace(v) then r == Fail(ENOSPC)
    else r == answer || (answer.Success? && r == Fail(ENOSPC) && AtMostTwoFree(v))
  }

  /** What is free before a link that found no block. */
  lemma FreeBefore(v: Vol, w: Vol)
    requires GrewByOne(v, w) && NoSpace(w)
    ensures exists y: nat :: OnlyFree(v, y, y)
  {
    var y: nat :| OnlyNew(v, w, y);
    forall b: nat | b < |v.disk|
      ensures b in v.owner || b == y
    {
      assert b in w.owner;
    }
    assert OnlyFree(v, y, y);
  }

  lemma FreeBeforeNew(v: Vol, w: Vol, x: nat, y: nat)
    requires OnlyNew(v, w, x) && OnlyFree(w, y, y)
    ensures OnlyFree(v, x, y)
  {}

  /** sfs_creat: opens the file of that name, or makes an empty one under it. */
  method Creat(fs: Sfs, d: nat, name: seq<Byte>, excl: bool) returns (r: Result<nat>)
    requires Mounted(fs) && IsRoot(fs.s, d) && IsName(name)
    modifies fs
    ensures Mounted(fs)
    ensures r.Ok? ==>
              r.value < |fs.s.vnodes| && name in NamesOf(fs.vol) && fs.s.vnodes[r.value].ino == NamesOf(fs.vol)[name]
    ensures name in old(NamesOf(fs.vol)) ==> fs.vol == old(fs.vol) && (r.Ok? <==> !excl) && (excl ==> r == Err(EEXIST))
    ensures name !in old(NamesOf(fs.vol)) && r.Ok? ==>
              var ino := fs.s.vnodes[r.value].ino;
              && NamesOf(fs.vol) == old(NamesOf(fs.vol))[name := ino]
              && ino !in old(fs.vol).files && ino in UserData(fs.vol) && AllZeros(UserData(fs.vol)[ino])
              && fs.s.vnodes[r.value].inode.size == 0
              && UserData(fs.vol) == old(UserData(fs.vol))[ino := UserData(fs.vol)[ino]]
    ensures r.Err? ==> NamesOf(fs.vol) == old(NamesOf(fs.vol)) && UserData(fs.vol) == old(UserData(fs.vol))
    ensures name !in old(NamesOf(fs.vol)) ==> CreateOutcome(old(fs.vol), name, if r.Ok? then Success else Fail(r.error))
  {
    ghost var es := DirSlots(fs.vol);
    var found, ino, slot, empty := FindName(fs, d, name);
    LookedUp(es, name, found, slot);
    if found && excl {
      return Err(EEXIST);
    }
    if found {
      assert SlotOk(fs.vol.files, es, slot) && FileOk(fs.vol.files, es, Loaded(fs.s.vnodes), ino);
      ghost var loaded := Loaded(fs.s.vnodes);
      var i := LoadVnode(fs, ino);
      TableLoad(fs.vol.files, es, loaded, Loaded(fs.s.vnodes));
      return Ok(i);
    }
    r := CreateNew(fs, d, name);
  }

  /** The state after sfs_makeobj: a new file, loaded, that has no name yet. */
  lemma NewFileSpace(s: State, v: Vol, s': State, v': Vol, ino: nat)
    requires Sound(s, v) && Sound(s', v') && NameSpace(v, Loaded(s.vnodes)) && ino !in v.files && ino in v'.files
    requires v'.files == v.files[ino := v'.files[ino]] && v'.files[ino].kind == TYPE_FILE && v'.files[ino].links == 0
    requires v'.files[ino].size == 0
    requires ino in Contents(v') && Contents(v') == Contents(v)[ino := Contents(v')[ino]]
    requires Loaded(s'.vnodes) == Loaded(s.vnodes) + {ino}
    ensures NameSpace(v', Loaded(s'.vnodes)) && DirSlots(v') == DirSlots(v)
    ensures ino != ROOT && UserData(v') == UserData(v)[ino := Contents(v')[ino]]
  {
    NoInodeZero(s', v');
    RootContent(v, v');
    SameDir(v, v');
    TableNew(v.files, DirSlots(v), Loaded(s.vnodes), ino, v'.files[ino]);
  }

  /** sfs_creat of a name that does not exist; a failed link takes the new file away again. */
  method CreateNew(fs: Sfs, d: nat, name: seq<Byte>) returns (r: Result<nat>)
    requires Mounted(fs) && IsRoot(fs.s, d) && IsName(name) && name !in NamesOf(fs.vol)
    modifies fs
    ensures Mounted(fs)
    ensures r.Ok? ==> r.value < |fs.s.vnodes|
    ensures r.Ok? ==>
              var ino := fs.s.vnodes[r.value].ino;
              && NamesOf(fs.vol) == old(NamesOf(fs.vol))[name := ino]
              && ino !in old(fs.vol).files && ino in UserData(fs.vol) && AllZeros(UserData(fs.vol)[ino])
              && fs.s.vnodes[r.value].inode.size == 0
              && UserData(fs.vol) == old(UserData(fs.vol))[ino := UserData(fs.vol)[ino]]
    ensures r.Err? ==> NamesOf(fs.vol) == old(NamesOf(fs.vol)) && UserData(fs.vol) == old(UserData(fs.vol))
    ensures CreateOutcome(old(fs.vol), name, if r.Ok? then Success else Fail(r.error))
  {
    var m := NewFile(fs, d);
    if m.Err? {
      return Err(m.error);
    }
    var i := m.value;
    ghost var v1, ino, data := fs.vol, fs.s.vnodes[i].ino, UserData(fs.vol);
    var l := NameNew(fs, d, i, name);
    AddThenDrop(old(UserData(fs.vol)), ino, data[ino]);
    if y: nat :| OnlyFree(v1, y, y) {
      FreeBeforeNew(old(fs.vol), v1, ino, y);
    }
    return if l.Fail? then Err(l.error) else Ok(i);
  }

  /** The rest of sfs_creat: link the new file, or drop it again. */
  method NameNew(fs: Sfs, d: nat, i: nat, name: seq<Byte>) returns (r: Status)
    requires Mounted(fs) && IsRoot(fs.s, d) && IsName(name) && name !in NamesOf(fs.vol)
    requires i < |fs.s.vnodes| && fs.s.vnodes[i].ino != ROOT && fs.s.vnodes[i].refcount == 1
    requires fs.s.vnodes[i].inode.links == 0
    modifies fs
    ensures Mounted(fs)
    ensures r.Success? ==> i < |fs.s.vnodes| && fs.s.vnodes[i].ino == old(fs.s).vnodes[i].ino
                           && fs.s.vnodes[i].inode.size == old(fs.s).vnodes[i].inode.size
                           && NamesOf(fs.vol) == old(NamesOf(fs.vol))[name := fs.s.vnodes[i].ino]
                           && UserData(fs.vol) == old(UserData(fs.vol))
    ensures r.Fail? ==>
              NamesOf(fs.vol) == old(NamesOf(fs.vol))
              && UserData(fs.vol) == old(UserData(fs.vol)) - {old(fs.s).vnodes[i].ino}
    ensures var answer := Refusal(old(DirSlots(fs.vol)), name);
            r == answer || (answer.Success? && r == Fail(ENOSPC) && exists y: nat :: OnlyFree(old(fs.vol), y, y))
  {
    var slot;
    r, slot := LinkAt(fs, d, i, name);
    if r.Fail? {
      if r != Refusal(old(DirSlots(fs.vol)), name) {
        FreeBefore(old(fs.vol), fs.vol);
      }
      Release(fs, i);
    }
  }

  lemma AddThenDrop<K, V>(m: map<K, V>, k: K, x: V)
    requires k !in m
    ensures m[k := x] - {k} == m
  {}

  /** sfs_makeobj on a mounted file system. */
  method NewFile(fs: Sfs, ghost d: nat) returns (r: Result<nat>)
    requires Mounted(fs) && IsRoot(fs.s, d)
    modifies fs
    ensures Mounted(fs) && DirSlots(fs.vol) == old(DirSlots(fs.vol)) && IsRoot(fs.s, d)
    ensures r.Err? <==> old(NoSpace(fs.vol))
    ensures r.Err? ==> r.error == ENOSPC && fs.vol == old(fs.vol)
    ensures r.Ok? ==> r.value < |fs.s.vnodes| && fs.s.vnodes[r.value].refcount == 1 && fs.s.vnodes[r.value].ino != ROOT
    ensures r.Ok? ==> fs.s.vnodes[r.value].inode.links == 0 && fs.s.vnodes[r.value].inode.size == 0
    ensures r.Ok? ==>
              var ino := fs.s.vnodes[r.value].ino;
              && ino !in old(fs.vol).files && ino !in old(UserData(fs.vol)) && OnlyNew(old(fs.vol), fs.vol, ino)
              && ino in UserData(fs.vol) && AllZeros(UserData(fs.vol)[ino])
              && UserData(fs.vol) == old(UserData(fs.vol))[ino := UserData(fs.vol)[ino]]
  {
    r := MakeObj(fs);
    if r.Ok? {
      NewFileSpace(old(fs.s), old(fs.vol), fs.s, fs.vol, fs.s.vnodes[r.value].ino);
    }
  }

  /** A change of one regular file's data, size and pointers leaves the name space alone. */
  lemma FileChanged(s: State, v: Vol, s': State, v': Vol, ino: nat, c: seq<Byte>)
    requires NameSpace(v, Loaded(s.vnodes)) && ino in v.files && ino != ROOT && ino in v'.files
    requires v'.files == v.files[ino := v'.files[ino]] && Contents(v') == Contents(v)[ino := c]
    requires v'.files[ino].kind == v.files[ino].kind && v'.files[ino].links == v.files[ino].links
    requires v'.files[ino].size < 0x8000_0000
    requires |s'.vnodes| == |s.vnodes| && forall k | 0 <= k < |s.vnodes| :: s'.vnodes[k].ino == s.vnodes[k].ino
    ensures NameSpace(v', Loaded(s'.vnodes)) && DirSlots(v') == DirSlots(v) && UserData(v') == UserData(v)[ino := c]
  {
    SameLoaded(s.vnodes, s'.vnodes);
    RootContent(v, v');
    SameDir(v, v');
    TableFile(v.files, DirSlots(v), Loaded(s.vnodes), ino, v'.files[ino]);
  }

  /** sfs_read on a regular file. */
  method ReadFile(fs: Sfs, i: nat, u: Uio) returns (r: Status, u': Uio, ghost t: nat)
    requires Mounted(fs) && i < |fs.s.vnodes| && u.Valid() && u.rw == Read
    modifies fs
    ensures fs.s == old(fs.s) && fs.vol == old(fs.vol)
    ensures fs.s.vnodes[i].ino == ROOT ==> r == Fail(EISDIR) && u' == u
    ensures fs.s.vnodes[i].ino != ROOT ==> ReadDone(fs.s, fs.vol, i, u, u', t, r)
    ensures var size := fs.s.vnodes[i].inode.size;
            fs.s.vnodes[i].ino != ROOT ==>
              ((t == 0 || u.offset + t <= size) <==>
                 u.offset >= size || u.offset + u.resid < 0x8000_0000 || size >= MAXFILEBYTES)
  {
    ghost var ino := fs.s.vnodes[i].ino;
    assert ino != ROOT ==> FileOk(fs.vol.files, DirSlots(fs.vol), Loaded(fs.s.vnodes), ino);
    if fs.s.vnodes[i].inode.kind == TYPE_DIR {
      return Fail(EISDIR), u, 0;
    }
    r, u', t := fs.Io(i, u);
    ReadsBelowEof(fs.s, fs.vol, i, u, u', t, r);
  }

  /** For instance: 0x7fffffff bytes asked for at offset 1 of a file of two bytes are not cut at its end. */
  method ReadPastEnd(fs: Sfs, i: nat, buf: seq<Byte>) returns (r: Status, u': Uio)
    requires Mounted(fs) && i < |fs.s.vnodes| && fs.s.vnodes[i].ino != ROOT && fs.s.vnodes[i].inode.size == 2
    requires |buf| >= 0x7fff_ffff
    modifies fs
    ensures fs.s == old(fs.s) && fs.vol == old(fs.vol) && r == Fail(EINVAL) && u'.offset == MAXFILEBYTES
  {
    ghost var t;
    r, u', t := ReadFile(fs, i, Uio(Read, 1, 0x7fff_ffff, buf, 0));
  }

  /** sfs_write on a regular file: its bytes and size change as written, and nothing else does. */
  method WriteFile(fs: Sfs, i: nat, u: Uio) returns (r: Status, u': Uio, ghost t: nat)
    requires Mounted(fs) && i < |fs.s.vnodes| && u.Valid() && u.rw == Write
    modifies fs
    ensures Mounted(fs) && DirSlots(fs.vol) == old(DirSlots(fs.vol))
    ensures old(fs.s).vnodes[i].ino == ROOT ==>
              r == Fail(EISDIR) && u' == u && fs.s == old(fs.s) && fs.vol == old(fs.vol)
    ensures old(fs.s).vnodes[i].ino != ROOT ==> WriteDone(old(fs.s), old(fs.vol), fs.s, fs.vol, i, u, u', t)
    ensures r.Success? ==> t == u.resid
    ensures r.Fail? && old(fs.s).vnodes[i].ino != ROOT ==> Stopped(u', fs.vol, r)
    ensures old(fs.s).vnodes[i].ino != ROOT ==>
              var (size, size') := (old(fs.s).vnodes[i].inode.size, fs.s.vnodes[i].inode.size);
              size' == Max(size, u'.offset)
              && (size' > MAXFILEBYTES <==> size > MAXFILEBYTES || u.offset > MAXFILEBYTES)
  {
    ghost var ino := fs.s.vnodes[i].ino;
    assert ino != ROOT ==> FileOk(fs.vol.files, DirSlots(fs.vol), Loaded(fs.s.vnodes), ino);
    if fs.s.vnodes[i].inode.kind == TYPE_DIR {
      return Fail(EISDIR), u, 0;
    }
    r, u', t := fs.Io(i, u);
    SizeIsMax(old(fs.s).vnodes[i].inode.size, u'.offset);
    SizePastMap(old(fs.s), old(fs.vol), fs.s, fs.vol, i, u, u', t);
    FileChanged(old(fs.s), old(fs.vol), fs.s, fs.vol, ino, Contents(fs.vol)[ino]);
  }

  /**
   For instance: nothing written at offset 100000 makes an empty file 100000 bytes
   long, more than the block map can hold.
   */
  method EmptyWrite(fs: Sfs, i: nat) returns (r: Status)
    requires Mounted(fs) && i < |fs.s.vnodes| && fs.s.vnodes[i].ino != ROOT && fs.s.vnodes[i].inode.size == 0
    modifies fs
    ensures Mounted(fs) && i < |fs.s.vnodes| && fs.s.vnodes[i].inode.size == 100000 > MAXFILEBYTES
  {
    ghost var t;
    var u';
    r, u', t := WriteFile(fs, i, Uio(Write, 100000, 0, [], 0));
  }

  /** sfs_truncate on a regular file. */
  method TruncateFile(fs: Sfs, i: nat, len: nat) returns (r: Status)
    requires Mounted(fs) && i < |fs.s.vnodes| && len < 0x8000_0000
    modifies fs
    ensures Mounted(fs) && DirSlots(fs.vol) == old(DirSlots(fs.vol))
    ensures old(fs.s).vnodes[i].ino == ROOT ==> r == Fail(EISDIR) && fs.s == old(fs.s) && fs.vol == old(fs.vol)
    ensures old(fs.s).vnodes[i].ino != ROOT ==>
              var (ino, blocklen) := (old(fs.s).vnodes[i].ino, (len + BLOCKSIZE - 1) / BLOCKSIZE);
              && r.Success? && Truncation(old(fs.vol), fs.vol, ino, blocklen) && fs.vol.files[ino].size == len
              && |fs.s.vnodes| == |old(fs.s).vnodes| && fs.s.vnodes[i].ino == ino && fs.s.vnodes[i].inode.size == len
              && ino in UserData(fs.vol) && ino in old(UserData(fs.vol))
              && UserData(fs.vol) == old(UserData(fs.vol))[ino := UserData(fs.vol)[ino]]
              && CutContent(old(UserData(fs.vol))[ino], UserData(fs.vol)[ino], blocklen)
  {
    ghost var ino := fs.s.vnodes[i].ino;
    assert ino != ROOT ==> FileOk(fs.vol.files, DirSlots(fs.vol), Loaded(fs.s.vnodes), ino);
    if fs.s.vnodes[i].inode.kind == TYPE_DIR {
      return Fail(EISDIR);
    }
    fs.Truncate(i, len);
    TruncatedContents(old(fs.vol), fs.vol, ino, (len + BLOCKSIZE - 1) / BLOCKSIZE);
    ghost var c := Contents(fs.vol)[ino];
    FileChanged(old(fs.s), old(fs.vol), fs.s, fs.vol, ino, c);
    return Success;
  }

  /**
   A truncation leaves nothing but zeros past the new length exactly if the tail
   that stays mapped held nothing else.
   */
  lemma CleanTail(c: seq<Byte>, c': seq<Byte>, len: nat)
    requires CutContent(c, c', (len + BLOCKSIZE - 1) / BLOCKSIZE)
    ensures (forall k: nat | len <= k < |c| :: c'[k] == 0) <==>
              (forall k: nat | len <= k < |c| :: InKeptTail(len, k) ==> c[k] == 0)
  {
    forall k: nat | len <= k < |c|
      ensures c'[k] == 0 <==> c[k] == 0 || !InKeptTail(len, k)
    {
      PastNewLength(c, c', len, k);
    }
  }

  lemma StaleBytes(c: seq<Byte>, c': seq<Byte>, len: nat)
    requires CutContent(c, c', (len + BLOCKSIZE - 1) / BLOCKSIZE) && |c| == MAXFILEBYTES && (len == 1 || len == 8192)
    ensures c'[1] == c[1] && c'[8192] == if len == 8192 then c[8192] else 0
  {}

  /**
   For instance: truncation to 8192 bytes leaves byte 8192, in a block that only
   the looser test on the indirect block keeps; truncation to 1 then takes that
   byte and leaves the second one.
   */
  method StaleTail(fs: Sfs, i: nat)
    requires Mounted(fs) && i < |fs.s.vnodes| && fs.s.vnodes[i].ino != ROOT && fs.s.vnodes[i].ino in UserData(fs.vol)
    requires var c := UserData(fs.vol)[fs.s.vnodes[i].ino]; |c| == MAXFILEBYTES && c[1] == 7 && c[8192] == 7
    modifies fs
    ensures Mounted(fs) && i < |fs.s.vnodes| && fs.s.vnodes[i].inode.size == 1 && fs.s.vnodes[i].ino in UserData(fs.vol)
    ensures var c := UserData(fs.vol)[fs.s.vnodes[i].ino]; |c| == MAXFILEBYTES && c[1] == 7 && c[8192] == 0
  {
    ghost var ino := fs.s.vnodes[i].ino;
    ghost var c := UserData(fs.vol)[ino];
    var r := TruncateFile(fs, i, 8192);
    ghost var c1 := UserData(fs.vol)[ino];
    StaleBytes(c, c1, 8192);
    assert fs.s.vnodes[i].inode.size == 8192 && c1[8192] == 7;
    r := TruncateFile(fs, i, 1);
    StaleBytes(c1, UserData(fs.vol)[ino], 1);
  }

  /** sfs_fsync. */
  method Fsync(fs: Sfs, i: nat)
    requires Mounted(fs) && i < |fs.s.vnodes|
    modifies fs
    ensures Mounted(fs) && DirSlots(fs.vol) == old(DirSlots(fs.vol)) && UserData(fs.vol) == old(UserData(fs.vol))
    ensures fs.vol == old(fs.vol).(disk := fs.s.disk) && fs.s.bits == old(fs.s).bits
    ensures fs.s.mapDirty == old(fs.s).mapDirty
    ensures fs.s.vnodes == old(fs.s).vnodes[i := old(fs.s).vnodes[i].(dirty := false)]
  {
    SyncInode(fs, i);
    SameLoaded(old(fs.s).vnodes, fs.s.vnodes);
    RootContent(old(fs.vol), fs.vol);
    SameDir(old(fs.vol), fs.vol);
  }
}
