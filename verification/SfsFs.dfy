/**
 File-system-level operations (sfs_fs.c): writing and reading the freemap,
 sync, unmount, mount; and that a clean disk determines the volume on it.
 */
module SfsFs {
  import opened SfsLayout
  import opened SfsVolume
  import opened SfsVnode
  import opened SfsTable
  import opened SfsNames
  import opened SfsDir
  import opened SfsOps
  import opened Bitmap

  // ---- The freemap on disk ---------------------------------------------

  /** Piece j of the freemap, as it lies in one block. */
  function MapPiece(bits: seq<Byte>, j: nat): Block
    requires BLOCKSIZE * (j + 1) <= |bits|
  {
    bits[BLOCKSIZE * j..BLOCKSIZE * (j + 1)]
  }

  /** Writing one freemap block. */
  lemma WriteMapBlock(s: State, v: Vol, j: nat)
    requires Good(s, v) && s.mapDirty && j < BitBlocks(|s.disk|)
    ensures MAPSTART + j < |s.disk| && BLOCKSIZE * (j + 1) <= |s.bits|
    ensures var d := s.disk[MAPSTART + j := MapPiece(s.bits, j)];
            && Good(s.(disk := d), v.(disk := d)) && Contents(v.(disk := d)) == Contents(v)
            && forall k: nat | k < BitBlocks(|s.disk|) && k != j :: MapBlock(d, k) == MapBlock(s.disk, k)
  {
    var b := MAPSTART + j;
    assert MapBlockFits(|s.disk|, j) && IsReserved(|s.disk|, b) && IsReserved(|s.disk|, 0);
    var d := s.disk[b := MapPiece(s.bits, j)];
    WriteElsewhere(v, b, MapPiece(s.bits, j));
    forall ino | ino in v.files && ino !in DirtyInos(s.vnodes)
      ensures DecodeInode(BlockAt(d, ino)) == v.files[ino]
    {
      assert OwnedInode(v, ino) && DecodeInode(BlockAt(v.disk, ino)) == v.files[ino];
    }
  }

  /** sfs_mapio, writing: the whole freemap, block by block. */
  method WriteMap(fs: Sfs)
    requires fs.Valid() && fs.s.mapDirty
    modifies fs
    ensures fs.Valid() && MapBacked(fs.s.disk, |fs.s.disk|, fs.s.bits) && Contents(fs.vol) == old(Contents(fs.vol))
    ensures fs.s == old(fs.s).(disk := fs.s.disk) && fs.vol == old(fs.vol).(disk := fs.s.disk)
  {
    var n := |fs.s.disk|;
    for j := 0 to BitBlocks(n)
      invariant fs.Valid() && |fs.s.disk| == n && Contents(fs.vol) == old(Contents(fs.vol))
      invariant fs.s == old(fs.s).(disk := fs.s.disk) && fs.vol == old(fs.vol).(disk := fs.s.disk)
      invariant forall k: nat | k < j :: MapBlock(fs.s.disk, k) == fs.s.bits[BLOCKSIZE * k..BLOCKSIZE * (k + 1)]
    {
      WriteMapBlock(fs.s, fs.vol, j);
      var d := fs.s.disk[MAPSTART + j := MapPiece(fs.s.bits, j)];
      fs.s := fs.s.(disk := d);
      fs.vol := fs.vol.(disk := d);
    }
  }

  /** sfs_sync: every dirty inode, then the freemap. */
  method Sync(fs: Sfs)
    requires Mounted(fs)
    modifies fs
    ensures Mounted(fs) && Clean(fs.s)
    ensures DirSlots(fs.vol) == old(DirSlots(fs.vol)) && UserData(fs.vol) == old(UserData(fs.vol))
    ensures fs.vol == old(fs.vol).(disk := fs.s.disk) && fs.s.bits == old(fs.s).bits
    ensures Loaded(fs.s.vnodes) == old(Loaded(fs.s.vnodes)) && |fs.s.vnodes| == |old(fs.s).vnodes|
  {
    for i := 0 to |fs.s.vnodes|
      invariant Mounted(fs) && |fs.s.vnodes| == |old(fs.s).vnodes| && Loaded(fs.s.vnodes) == old(Loaded(fs.s.vnodes))
      invariant DirSlots(fs.vol) == old(DirSlots(fs.vol)) && UserData(fs.vol) == old(UserData(fs.vol))
      invariant fs.vol == old(fs.vol).(disk := fs.s.disk) && fs.s.bits == old(fs.s).bits
      invariant forall k | 0 <= k < i :: !fs.s.vnodes[k].dirty
    {
      ghost var before := fs.s.vnodes;
      Fsync(fs, i);
      SameLoaded(before, fs.s.vnodes);
    }
    if fs.s.mapDirty {
      ghost var v := fs.vol;
      WriteMap(fs);
      RootContent(v, fs.vol);
      SameDir(v, fs.vol);
      fs.s := fs.s.(mapDirty := false);
    }
  }

  /** Nothing is waiting to be written. */
  predicate Clean(s: State) {
    !s.mapDirty && forall i | 0 <= i < |s.vnodes| :: !s.vnodes[i].dirty
  }

  // ---- Mounting --------------------------------------------------------

  /** The first k freemap blocks, one after the other. */
  function MapBytes(d: seq<Block>, k: nat): (bits: seq<Byte>)
    ensures |bits| == BLOCKSIZE * k
  {
    if k == 0 then [] else MapBytes(d, k - 1) + MapBlock(d, k - 1)
  }

  lemma {:induction false} PieceOfMapBytes(d: seq<Block>, k: nat, j: nat)
    requires j < k
    ensures MapBytes(d, k)[BLOCKSIZE * j..BLOCKSIZE * (j + 1)] == MapBlock(d, j)
  {
    var init := MapBytes(d, k - 1);
    if j < k - 1 {
      PieceOfMapBytes(d, k - 1, j);
      assert MapBytes(d, k)[BLOCKSIZE * j..BLOCKSIZE * (j + 1)] == init[BLOCKSIZE * j..BLOCKSIZE * (j + 1)];
    }
  }

  /** The bytes behind the freemap blocks are determined by the disk. */
  lemma {:induction false} MapBytesUnique(d: seq<Block>, bits: seq<Byte>, k: nat)
    requires |bits| == BLOCKSIZE * k
    requires forall j: nat | j < k :: MapBlock(d, j) == bits[BLOCKSIZE * j..BLOCKSIZE * (j + 1)]
    ensures MapBytes(d, k) == bits
  {
    if k > 0 {
      var m := BLOCKSIZE * (k - 1);
      var init := bits[..m];
      forall j: nat | j < k - 1
        ensures MapBlock(d, j) == init[BLOCKSIZE * j..BLOCKSIZE * (j + 1)]
      {
        SliceOfTake(bits, m, BLOCKSIZE * j, BLOCKSIZE * (j + 1));
      }
      MapBytesUnique(d, init, k - 1);
      assert bits == init + bits[m..];
    }
  }

  lemma SliceOfTake(bits: seq<Byte>, m: nat, lo: nat, hi: nat)
    requires lo <= hi <= m <= |bits|
    ensures bits[..m][lo..hi] == bits[lo..hi]
  {}

  /** The disk alone says everything: superblock, freemap, every live inode. */
  ghost predicate Image(v: Vol) {
    && MapOnDevice(|v.disk|) && Owned(v) && Backed(v, {}) && SuperOk(v.disk, |v.disk|)
    && MapOk(MapBytes(v.disk, BitBlocks(|v.disk|)), |v.disk|, v.owner.Keys)
  }

  /** With nothing waiting to be written, the disk alone says everything, the freemap included. */
  lemma CleanImage(s: State, v: Vol)
    requires Good(s, v) && Clean(s)
    ensures Image(v) && MapBytes(v.disk, BitBlocks(|v.disk|)) == s.bits
  {
    MapBytesUnique(s.disk, s.bits, BitBlocks(|s.disk|));
    assert DirtyInos(s.vnodes) == {};
  }

  /** The name space needs no loaded vnode exactly when no file is open without a name. */
  lemma NamesWithoutVnodes(v: Vol, loaded: set<nat>)
    requires NameSpace(v, loaded)
    ensures NameSpace(v, {}) <==> forall ino | ino in v.files && ino != ROOT :: v.files[ino].links > 0
  {
    var es := DirSlots(v);
    forall ino | ino in v.files && ino != ROOT
      ensures FileOk(v.files, es, {}, ino) <==> v.files[ino].links > 0
    {
      assert FileOk(v.files, es, loaded, ino);
    }
  }

  lemma SameFiles(v: Vol, w: Vol, ino: nat)
    requires w.disk == v.disk && Image(v) && Image(w) && NameSpace(v, {}) && NameSpace(w, {}) && ino in v.files
    ensures ino in w.files && w.files[ino] == v.files[ino]
  {
    assert DecodeInode(BlockAt(v.disk, ROOT)) == v.files[ROOT] && DecodeInode(BlockAt(w.disk, ROOT)) == w.files[ROOT];
    var es := DirSlots(v);
    assert DirSlots(w) == es;
    if ino != ROOT {
      assert FileOk(v.files, es, {}, ino) && OwnedInode(v, ino);
      if forall i: nat | i < |es| :: es[i].ino != ino {
        LinksNone(es, ino);
      }
      var i: nat :| i < |es| && es[i].ino == ino;
      assert IsReserved(|v.disk|, 0) && SlotOk(w.files, es, i);
    }
    assert DecodeInode(BlockAt(v.disk, ino)) == v.files[ino] && DecodeInode(BlockAt(w.disk, ino)) == w.files[ino];
  }

  lemma SameOwner(v: Vol, w: Vol, b: nat)
    requires w.disk == v.disk && w.files == v.files && Image(v) && Image(w) && b in v.owner
    ensures b in w.owner && w.owner[b] == v.owner[b]
  {
    var bits := MapBytes(v.disk, BitBlocks(|v.disk|));
    assert InRange(|v.disk|, b) && (BitAt(bits, b) <==> b in v.owner) && (BitAt(bits, b) <==> b in w.owner);
    assert OwnerPoints(v, b) && OwnerPoints(w, b);
    ExactlyOneOwner(w, b);
    assert Points(w, v.owner[b], b) && Points(w, w.owner[b], b);
  }

  /** A disk is the image of one volume only: files, contents, names and the owner of every block. */
  lemma DiskDetermines(v: Vol, w: Vol)
    requires w.disk == v.disk && Image(v) && Image(w) && NameSpace(v, {}) && NameSpace(w, {})
    ensures v == w
  {
    forall ino | ino in v.files
      ensures ino in w.files && w.files[ino] == v.files[ino]
    {
      SameFiles(v, w, ino);
    }
    forall ino | ino in w.files
      ensures ino in v.files
    {
      SameFiles(w, v, ino);
    }
    assert v.files == w.files;
    forall b | b in v.owner
      ensures b in w.owner && w.owner[b] == v.owner[b]
    {
      SameOwner(v, w, b);
    }
    forall b | b in w.owner
      ensures b in v.owner
    {
      SameOwner(w, v, b);
    }
    assert v.owner == w.owner;
  }

  /** SFS_BITBLOCKS of the superblock's count, in the 32 bits it is computed in. */
  function MapSize(nblocks: Word): (n: nat)
    ensures nblocks + BLOCKBITS - 1 < 0x1_0000_0000 ==> n == BitBlocks(nblocks)
  {
    (nblocks + BLOCKBITS - 1) % 0x1_0000_0000 / BLOCKBITS
  }

  /** Some block of the freemap is not on the device. */
  predicate FreemapBeyond(nblocks: Word, blocks: nat) {
    0 < MapSize(nblocks) && blocks < MAPSTART + MapSize(nblocks)
  }

  /**
   sfs_domount: the superblock's magic number decides; the freemap is read back
   from its blocks. A device too small for these blocks panics the kernel, in
   sfs_rwblock.
   */
  method DoMount(disk: seq<Block>, ghost v: Vol) returns (panic: bool, r: Result<Sfs>)
    ensures panic <==>
              || |disk| == 0
              || (Words(disk[0])[0] == MAGIC && FreemapBeyond(Words(disk[0])[1], |disk|))
    ensures !panic ==> (r.Err? <==> Words(disk[0])[0] != MAGIC) && (r.Err? ==> r.error == EINVAL)
    ensures !panic && r.Ok? ==>
              && fresh(r.value) && r.value.vol == v && r.value.nblocks == Words(disk[0])[1]
              && r.value.s == State(disk, MapBytes(disk, MapSize(Words(disk[0])[1])), false, [])
              && (v.disk == disk && Image(v) ==> r.value.Valid())
  {
    if |disk| == 0 {
      return true, Err(EINVAL);
    }
    var super := Words(disk[0]);
    if super[0] != MAGIC {
      return false, Err(EINVAL);
    }
    var nblocks := super[1];
    var bits := [];
    for j := 0 to MapSize(nblocks)
      invariant bits == MapBytes(disk, j) && (j == 0 || MAPSTART + j <= |disk|)
    {
      if |disk| <= MAPSTART + j {
        return true, Err(EINVAL);
      }
      bits := bits + disk[MAPSTART + j];
    }
    if v.disk == disk && Image(v) {
      FreshMount(v);
    }
    var fs := new Sfs(nblocks, disk, bits, v);
    return false, Ok(fs);
  }

  /** What a consistent disk needs for sfs_domount to find its freemap. */
  lemma MapFits(v: Vol)
    requires Image(v) && ROOT in v.files
    ensures |v.disk| > 0 && Words(v.disk[0])[0] == MAGIC && Words(v.disk[0])[1] == |v.disk|
    ensures MAPSTART + MapSize(|v.disk|) <= |v.disk|
  {
    assert OwnedInode(v, ROOT) && OwnerPoints(v, ROOT);
    OnDevice(v, ROOT);
    var n := |v.disk|;
    assert MapBlockFits(n, BitBlocks(n) - 1);
  }

  lemma FreshMount(v: Vol)
    requires Image(v)
    ensures Good(State(v.disk, MapBytes(v.disk, BitBlocks(|v.disk|)), false, []), v)
  {
    var bits := MapBytes(v.disk, BitBlocks(|v.disk|));
    forall j: nat | j < BitBlocks(|v.disk|)
      ensures MapBlock(v.disk, j) == bits[BLOCKSIZE * j..BLOCKSIZE * (j + 1)]
    {
      PieceOfMapBytes(v.disk, BitBlocks(|v.disk|), j);
    }
    assert DirtyInos([]) == {};
  }

  /** sfs_unmount, after the sync that comes before it. */
  method Unmount(fs: Sfs) returns (r: Status)
    requires Mounted(fs) && Clean(fs.s)
    ensures r.Success? <==> |fs.s.vnodes| == 0
    ensures r.Fail? ==> r.error == EBUSY
    ensures r.Success? ==> Image(fs.vol) && NameSpace(fs.vol, {})
  {
    if |fs.s.vnodes| > 0 {
      return Fail(EBUSY);
    }
    assert !fs.s.mapDirty;
    CleanImage(fs.s, fs.vol);
    assert Loaded(fs.s.vnodes) == {};
    return Success;
  }

  /** Sync, unmount, mount again: the same freemap, names and file contents. */
  method Remount(fs: Sfs) returns (r: Result<Sfs>)
    requires Mounted(fs)
    modifies fs
    ensures r.Err? <==> |old(fs.s).vnodes| > 0
    ensures r.Err? ==> r.error == EBUSY && Mounted(fs)
    ensures r.Ok? ==> fresh(r.value) && Mounted(r.value) && r.value.s.vnodes == [] && r.value.nblocks == fs.nblocks
    ensures r.Ok? ==> r.value.s.bits == old(fs.s).bits
    ensures r.Ok? ==> r.value.vol.files == old(fs.vol).files && r.value.vol.owner == old(fs.vol).owner
    ensures r.Ok? ==> DirSlots(r.value.vol) == old(DirSlots(fs.vol)) && UserData(r.value.vol) == old(UserData(fs.vol))
  {
    Sync(fs);
    var u := Unmount(fs);
    if u.Fail? {
      return Err(u.error);
    }
    CleanImage(fs.s, fs.vol);
    MapFits(fs.vol);
    ghost var v: Vol :| v.disk == fs.s.disk && Image(v) && NameSpace(v, {});
    DiskDetermines(v, fs.vol);
    var panic;
    panic, r := DoMount(fs.s.disk, v);
    assert Loaded([]) == {};
  }
}
