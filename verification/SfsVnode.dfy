/**
 The in-memory file system object and file-level I/O (sfs_vnode.c): space
 allocation, block mapping, byte-granular reads and writes, truncation.
 Every panic and assertion of the source on these paths is an `assert` here.
 */
module SfsVnode {
  import opened SfsLayout
  import opened SfsVolume
  import opened Bitmap

  /** struct sfs_vnode: an inode loaded into memory, with its reference count. */
  datatype Vnode = Vnode(ino: Word, inode: Inode, dirty: bool, refcount: nat)

  /** struct sfs_fs: the device's blocks, the freemap's bytes, the vnode table. */
  datatype State = State(disk: seq<Block>, bits: seq<Byte>, mapDirty: bool, vnodes: seq<Vnode>)

  // ---- Agreement of memory and disk ------------------------------------

  /** The superblock says how many blocks there are, and not more than an off_t can address. */
  predicate SuperOk(d: seq<Block>, nblocks: nat) {
    Words(BlockAt(d, 0))[0] == MAGIC && Words(BlockAt(d, 0))[1] == nblocks && nblocks <= MAXBLOCKS
  }

  function MapBlock(d: seq<Block>, j: nat): Block {
    BlockAt(d, MAPSTART + j)
  }

  /** The freemap blocks hold the given bytes. */
  ghost predicate MapBacked(d: seq<Block>, nblocks: nat, bytes: seq<Byte>) {
    && |bytes| == BLOCKSIZE * BitBlocks(nblocks)
    && forall j: nat | j < BitBlocks(nblocks) :: MapBlock(d, j) == bytes[BLOCKSIZE * j..BLOCKSIZE * (j + 1)]
  }

  ghost function DirtyInos(vnodes: seq<Vnode>): set<nat> {
    set i | 0 <= i < |vnodes| && vnodes[i].dirty :: vnodes[i].ino
  }

  /** Every inode that is not dirty in memory can be read back from its block. */
  ghost predicate Backed(v: Vol, dirty: set<nat>) {
    forall ino {:trigger DecodeInode(BlockAt(v.disk, ino))} | ino in v.files && ino !in dirty ::
      DecodeInode(BlockAt(v.disk, ino)) == v.files[ino]
  }

  /** The vnode table: one vnode per inode, holding that inode's current value. */
  ghost predicate CacheOk(vnodes: seq<Vnode>, files: map<nat, Inode>) {
    && (forall i | 0 <= i < |vnodes| ::
          vnodes[i].ino in files && files[vnodes[i].ino] == vnodes[i].inode && vnodes[i].refcount > 0)
    && (forall i, j | 0 <= i < j < |vnodes| :: vnodes[i].ino != vnodes[j].ino)
  }

  /** The bytes are a bitmap for a device of nblocks, with exactly the given blocks marked. */
  ghost predicate MapOk(bits: seq<Byte>, nblocks: nat, marked: set<nat>) {
    && |bits| == BLOCKSIZE * BitBlocks(nblocks)
    && (forall b: nat {:trigger BitAt(bits, b)} | b < BitmapSize(nblocks) :: BitAt(bits, b) <==> b in marked)
    && (forall b: nat {:trigger InRange(nblocks, b)} | b in marked :: InRange(nblocks, b))
  }

  predicate InRange(nblocks: nat, b: nat) {
    b < BitmapSize(nblocks)
  }

  /** The same, said with the bitmap's own set. */
  lemma MapSet(bits: seq<Byte>, nblocks: nat, marked: set<nat>)
    requires |bits| == BLOCKSIZE * BitBlocks(nblocks)
    ensures MapOk(bits, nblocks, marked) <==> BitSet(bits, BitmapSize(nblocks)) == marked
    ensures |bits| == (BitmapSize(nblocks) + 7) / 8 && PadSet(bits, BitmapSize(nblocks))
  {
    var n := BitmapSize(nblocks);
    var set1 := BitSet(bits, n);
    assert forall b: nat | b < n :: b in set1 <==> BitAt(bits, b);
    if MapOk(bits, nblocks, marked) {
      forall b: nat | b in marked
        ensures b in set1
      {
        assert InRange(nblocks, b) && (BitAt(bits, b) <==> b in marked);
      }
    }
  }

  predicate MapBlockFits(nblocks: nat, j: nat) {
    MAPSTART + j < nblocks
  }

  /** The freemap blocks lie on the device. */
  ghost predicate MapOnDevice(nblocks: nat) {
    forall j: nat {:trigger MapBlockFits(nblocks, j)} | j < BitBlocks(nblocks) :: MapBlockFits(nblocks, j)
  }

  /** Memory and disk are in order and stand for the volume v, the freemap aside. */
  ghost predicate Sound(s: State, v: Vol) {
    && v.disk == s.disk && MapOnDevice(|s.disk|)
    && Owned(v)
    && CacheOk(s.vnodes, v.files)
    && Backed(v, DirtyInos(s.vnodes))
    && SuperOk(s.disk, |s.disk|)
    && (!s.mapDirty ==> MapBacked(s.disk, |s.disk|, s.bits))
  }

  /** ... and a block is marked in the freemap exactly when it has an owner. */
  ghost predicate Good(s: State, v: Vol) {
    Sound(s, v) && MapOk(s.bits, |s.disk|, v.owner.Keys)
  }

  /** No block of the device is free. */
  ghost predicate NoSpace(v: Vol) {
    forall b: nat | b < |v.disk| :: b in v.owner
  }

  ghost predicate OnlyNew(v: Vol, w: Vol, x: nat) {
    |w.disk| == |v.disk| && forall b {:trigger b in w.owner} | b in w.owner :: b in v.owner || b == x
  }

  /** At most one block more is in use in w: a failed allocation may leave an empty indirect block behind. */
  ghost predicate GrewByOne(v: Vol, w: Vol) {
    exists x: nat :: OnlyNew(v, w, x)
  }

  lemma GrewOn(v: Vol, w: Vol, w': Vol)
    requires w'.owner == w.owner && |w'.disk| == |w.disk|
    ensures GrewByOne(v, w) ==> GrewByOne(v, w')
  {
    if x: nat :| OnlyNew(v, w, x) {
      assert OnlyNew(v, w', x);
    }
  }

  lemma FullMap(v: Vol)
    requires Owned(v)
    ensures NoSpace(v) <==> forall b: nat | b < BitmapSize(|v.disk|) :: b in v.owner
  {
    var n := |v.disk|;
    assert n <= BitmapSize(n);
    forall b: nat | n <= b < BitmapSize(n)
      ensures b in v.owner
    {
      assert IsReserved(n, b);
    }
  }

  // ---- Elementary changes ----------------------------------------------

  /** Inode blocks and reserved blocks are the same in v and on disk d. */
  ghost predicate MetaSame(v: Vol, d: seq<Block>) {
    && |d| == |v.disk|
    && forall b {:trigger BlockAt(d, b)} | b in v.owner && (v.owner[b].InodeBlock? || v.owner[b].Reserved?) ::
         BlockAt(d, b) == BlockAt(v.disk, b)
  }

  lemma MetaWrite(v: Vol, d: seq<Block>, b: nat, blk: Block)
    requires MetaSame(v, d) && b < |d|
    requires b in v.owner ==> v.owner[b].Data? || v.owner[b].Indirect?
    ensures MetaSame(v, d[b := blk])
  {
    forall x | x in v.owner && (v.owner[x].InodeBlock? || v.owner[x].Reserved?)
      ensures BlockAt(d[b := blk], x) == BlockAt(v.disk, x)
    {
      assert BlockAt(d, x) == BlockAt(v.disk, x);
    }
  }

  lemma MetaKept(v: Vol, d: seq<Block>, dirty: set<nat>, bytes: seq<Byte>)
    requires Owned(v) && MetaSame(v, d)
    ensures Backed(v, dirty) ==> Backed(v.(disk := d), dirty)
    ensures SuperOk(v.disk, |v.disk|) ==> SuperOk(d, |v.disk|)
    ensures MapBacked(v.disk, |v.disk|, bytes) ==> MapBacked(d, |v.disk|, bytes)
  {
    forall ino | ino in v.files
      ensures DecodeInode(BlockAt(d, ino)) == DecodeInode(BlockAt(v.disk, ino))
    {
      assert OwnedInode(v, ino);
    }
    assert IsReserved(|v.disk|, 0);
    forall j: nat | j < BitBlocks(|v.disk|)
      ensures MapBlock(d, j) == MapBlock(v.disk, j)
    {
      assert IsReserved(|v.disk|, MAPSTART + j);
    }
  }

  /** The vnode at index i with a new inode value, now dirty. */
  function SetInode(vnodes: seq<Vnode>, i: nat, ip: Inode): seq<Vnode>
    requires i < |vnodes|
  {
    vnodes[i := vnodes[i].(inode := ip, dirty := true)]
  }

  lemma SetInodeOk(vnodes: seq<Vnode>, files: map<nat, Inode>, i: nat, ip: Inode)
    requires CacheOk(vnodes, files) && i < |vnodes|
    ensures CacheOk(SetInode(vnodes, i, ip), files[vnodes[i].ino := ip])
    ensures DirtyInos(SetInode(vnodes, i, ip)) == DirtyInos(vnodes) + {vnodes[i].ino}
  {
    var w := SetInode(vnodes, i, ip);
    assert w[i].ino in DirtyInos(w);
    forall ino | ino in DirtyInos(vnodes)
      ensures ino in DirtyInos(w)
    {
      var k :| 0 <= k < |vnodes| && vnodes[k].dirty && vnodes[k].ino == ino;
      assert w[k].dirty && w[k].ino == ino;
    }
  }

  /** Changing the inode of one vnode, given that the volume stays in order. */
  lemma ChangeInode(s: State, v: Vol, w: Vol, i: nat, ip: Inode, bits: seq<Byte>)
    requires Sound(s, v) && i < |s.vnodes|
    requires Owned(w) && MetaSame(v, w.disk) && w.files == v.files[s.vnodes[i].ino := ip]
    ensures Sound(State(w.disk, bits, true, SetInode(s.vnodes, i, ip)), w)
  {
    SetInodeOk(s.vnodes, v.files, i, ip);
    MetaKept(v, w.disk, DirtyInos(s.vnodes), []);
  }

  /** Hooking a free block into an empty direct slot, as sfs_bmap does. */
  lemma HookDirect(s: State, v: Vol, i: nat, f: nat, b: Word, bits: seq<Byte>)
    requires Sound(s, v) && i < |s.vnodes| && f < NDIRECT && s.vnodes[i].inode.direct[f] == 0
    requires b !in v.owner && 0 < b < |v.disk| && MapOk(bits, |v.disk|, v.owner.Keys + {b})
    ensures var (ino, ip) := (s.vnodes[i].ino, s.vnodes[i].inode);
            var ip' := ip.(direct := ip.direct[f := b]);
            var w := Vol(s.disk[b := Zero], v.files[ino := ip'], v.owner[b := Data(ino, f)]);
            && Good(State(w.disk, bits, true, SetInode(s.vnodes, i, ip')), w)
            && Contents(w) == Contents(v)
  {
    var (ino, ip) := (s.vnodes[i].ino, s.vnodes[i].inode);
    var ip' := ip.(direct := ip.direct[f := b]);
    var u := v.(disk := v.disk[b := Zero]);
    var w := Vol(u.disk, v.files[ino := ip'], v.owner[b := Data(ino, f)]);
    WriteElsewhere(v, b, Zero);
    SetDirect(u, ino, f, b);
    MetaWrite(v, v.disk, b, Zero);
    ChangeInode(s, v, w, i, ip', bits);
  }

  /** The same for a new indirect block. */
  lemma HookIndirect(s: State, v: Vol, i: nat, b: Word, bits: seq<Byte>)
    requires Sound(s, v) && i < |s.vnodes| && s.vnodes[i].inode.indirect == 0
    requires b !in v.owner && 0 < b < |v.disk| && MapOk(bits, |v.disk|, v.owner.Keys + {b})
    ensures var (ino, ip) := (s.vnodes[i].ino, s.vnodes[i].inode);
            var ip' := ip.(indirect := b);
            var w := Vol(s.disk[b := Zero], v.files[ino := ip'], v.owner[b := Indirect(ino)]);
            && Good(State(w.disk, bits, true, SetInode(s.vnodes, i, ip')), w)
            && Contents(w) == Contents(v)
  {
    var (ino, ip) := (s.vnodes[i].ino, s.vnodes[i].inode);
    var ip' := ip.(indirect := b);
    var u := v.(disk := v.disk[b := Zero]);
    var w := Vol(u.disk, v.files[ino := ip'], v.owner[b := Indirect(ino)]);
    WriteElsewhere(v, b, Zero);
    SetIndirect(u, ino, b);
    MetaWrite(v, v.disk, b, Zero);
    ChangeInode(s, v, w, i, ip', bits);
  }

  /** The same for an entry of the indirect block, which is written back. */
  lemma HookEntry(s: State, v: Vol, i: nat, j: nat, b: Word, bits: seq<Byte>)
    requires Sound(s, v) && i < |s.vnodes| && j < DBPERIDB && 0 < s.vnodes[i].inode.indirect < |v.disk|
    requires Entry(s.disk, s.vnodes[i].inode.indirect, j) == 0
    requires b !in v.owner && 0 < b < |v.disk| && MapOk(bits, |v.disk|, v.owner.Keys + {b})
    ensures var (ino, idb) := (s.vnodes[i].ino, s.vnodes[i].inode.indirect);
            var d := s.disk[b := Zero];
            var w := Vol(d[idb := FromWords(Words(d[idb])[j := b])], v.files, v.owner[b := Data(ino, NDIRECT + j)]);
            && Good(State(w.disk, bits, true, s.vnodes), w)
            && Contents(w) == Contents(v)
            && FilePtr(s.vnodes[i].inode, w.disk, NDIRECT + j) == b
  {
    var (ino, idb) := (s.vnodes[i].ino, s.vnodes[i].inode.indirect);
    var u := v.(disk := v.disk[b := Zero]);
    var blk := FromWords(Words(u.disk[idb])[j := b]);
    var w := Vol(u.disk[idb := blk], v.files, v.owner[b := Data(ino, NDIRECT + j)]);
    assert OwnedIndirect(v, ino);
    WriteElsewhere(v, b, Zero);
    assert u.disk[idb] == v.disk[idb];
    SetEntry(u, ino, j, b);
    MetaWrite(v, v.disk, b, Zero);
    MetaWrite(v, u.disk, idb, blk);
    MetaKept(v, w.disk, DirtyInos(s.vnodes), []);
  }

  /** An indirect block lies on the device and is marked. */
  lemma IndirectOnDevice(s: State, v: Vol, i: nat)
    requires Sound(s, v) && i < |s.vnodes|
    ensures var p := s.vnodes[i].inode.indirect; p != 0 ==>
              p < |v.disk| && p in v.owner && v.owner[p] == Indirect(s.vnodes[i].ino)
  {
    var ino := s.vnodes[i].ino;
    assert OwnedIndirect(v, ino);
    if v.files[ino].indirect != 0 {
      OnDevice(v, v.files[ino].indirect);
    }
  }

  /** A data block lies on the device and is marked. */
  lemma PtrOnDevice(s: State, v: Vol, i: nat, f: nat)
    requires Sound(s, v) && i < |s.vnodes| && f < MAXFILEBLOCKS
    ensures var p := FilePtr(s.vnodes[i].inode, s.disk, f); p != 0 ==>
              p < |v.disk| && p in v.owner && v.owner[p] == Data(s.vnodes[i].ino, f)
  {
    var ino := s.vnodes[i].ino;
    assert OwnedPtr(v, ino, f);
    if FilePtr(v.files[ino], v.disk, f) != 0 {
      OnDevice(v, FilePtr(v.files[ino], v.disk, f));
    }
  }

  /** Only the pointers and the dirty flag of a vnode changed. */
  ghost predicate PtrsOnly(x: Vnode, y: Vnode) {
    && y.ino == x.ino && y.refcount == x.refcount && (x.dirty ==> y.dirty)
    && y.inode == x.inode.(direct := y.inode.direct, indirect := y.inode.indirect)
  }

  /** A step in which block mapping touched only the vnode at index i, and no file's contents. */
  ghost predicate MapStep(s: State, v: Vol, s': State, v': Vol, i: nat)
    requires i < |s.vnodes|
  {
    && |s'.disk| == |s.disk|
    && |s'.vnodes| == |s.vnodes| && s'.vnodes == s.vnodes[i := s'.vnodes[i]]
    && PtrsOnly(s.vnodes[i], s'.vnodes[i])
    && v'.files == v.files[s.vnodes[i].ino := s'.vnodes[i].inode]
    && Contents(v') == Contents(v)
  }

  lemma MapTwice(s: State, v: Vol, s': State, v': Vol, s'': State, v'': Vol, i: nat)
    requires i < |s.vnodes| && i < |s'.vnodes| && MapStep(s, v, s', v', i) && MapStep(s', v', s'', v'', i)
    ensures MapStep(s, v, s'', v'', i)
  {}

  /** bzero of the indirect block buffer. */
  function ZeroBuf(): (ws: seq<Word>)
    ensures |ws| == DBPERIDB
  {
    seq(DBPERIDB, i => 0)
  }

  lemma ZeroBufWords()
    ensures ZeroBuf() == Words(Zero)
  {
    ZeroWords();
  }

  // ---- I/O requests ----------------------------------------------------

  datatype Rw = Read | Write
  datatype Status = Success | Fail(error: Errno)

  /** struct uio: a transfer between a file and buf[pos..pos + resid]. */
  datatype Uio = Uio(rw: Rw, offset: nat, resid: nat, buf: seq<Byte>, pos: nat) {
    predicate Valid() {
      pos + resid <= |buf| && offset < 0x8000_0000 && resid < 0x1_0000_0000
    }
  }

  /** uiomove: moves |k| bytes between k and the buffer; returns what k then holds. */
  function Uiomove(k: seq<Byte>, u: Uio): (r: (seq<Byte>, Uio))
    requires u.Valid() && |k| <= u.resid && u.offset + |k| < 0x8000_0000
    ensures |r.0| == |k| && r.1.Valid()
  {
    var n := |k|;
    var v := u.(offset := u.offset + n, resid := u.resid - n, pos := u.pos + n);
    match u.rw
    case Read => (k, v.(buf := Splice(u.buf, u.pos, k)))
    case Write => (u.buf[u.pos..u.pos + n], v)
  }

  /** x' is x with the n elements from i on taken from y[j..]; nothing changes when n is 0. */
  ghost predicate Patched<T>(x: seq<T>, x': seq<T>, i: nat, y: seq<T>, j: nat, n: nat) {
    if n == 0 then x' == x
    else i + n <= |x| && j + n <= |y| && x' == Splice(x, i, y[j..j + n])
  }

  lemma PatchedTwice<T>(x: seq<T>, x': seq<T>, x'': seq<T>, i: nat, i': nat, y: seq<T>, j: nat, j': nat,
                        n: nat, m: nat, sum: nat)
    requires Patched(x, x', i, y, j, n) && Patched(x', x'', i', y, j', m)
    requires i' == i + n && j' == j + n && sum == n + m
    ensures Patched(x, x'', i, y, j, sum)
  {
    if n > 0 && m > 0 {
      SpliceTwice(x, i, y[j..j + n], y[j + n..j + n + m]);
      assert y[j..j + n] + y[j + n..j + n + m] == y[j..j + n + m];
    }
  }

  /** What t bytes moved through u did to the contents c of the file and to u. */
  ghost predicate Moved(c: seq<Byte>, c': seq<Byte>, u: Uio, u': Uio, t: nat) {
    && u.Valid() && t <= u.resid && |c| == |c'|
    && u' == u.(offset := u.offset + t, resid := u.resid - t, pos := u.pos + t, buf := u'.buf)
    && match u.rw
       case Write => Patched(c, c', u.offset, u.buf, u.pos, t) && u'.buf == u.buf
       case Read => c' == c && Patched(u.buf, u'.buf, u.pos, c, u.offset, t)
  }

  lemma MovedTwice(c: seq<Byte>, c': seq<Byte>, c'': seq<Byte>, u: Uio, u': Uio, u'': Uio, t: nat, t': nat, sum: nat)
    requires Moved(c, c', u, u', t) && Moved(c', c'', u', u'', t') && sum == t + t'
    ensures Moved(c, c'', u, u'', sum)
  {
    match u.rw
    case Write => PatchedTwice(c, c', c'', u.offset, u'.offset, u.buf, u.pos, u'.pos, t, t', sum);
    case Read => PatchedTwice(u.buf, u'.buf, u''.buf, u.pos, u'.pos, c, u.offset, u'.offset, t, t', sum);
  }

  /** A step of I/O on the vnode at index i that moved t bytes through u. */
  ghost predicate IoStep(s: State, v: Vol, s': State, v': Vol, i: nat, u: Uio, u': Uio, t: nat)
    requires i < |s.vnodes|
  {
    var ino := s.vnodes[i].ino;
    && |s'.disk| == |s.disk|
    && |s'.vnodes| == |s.vnodes| && s'.vnodes == s.vnodes[i := s'.vnodes[i]]
    && PtrsOnly(s.vnodes[i], s'.vnodes[i])
    && v'.files == v.files[ino := s'.vnodes[i].inode]
    && ino in Contents(v) && ino in Contents(v') && Contents(v') == Contents(v)[ino := Contents(v')[ino]]
    && Moved(Contents(v)[ino], Contents(v')[ino], u, u', t)
    && (u.rw == Read ==> s' == s && v' == v)
  }

  lemma IoTwice(s: State, v: Vol, s': State, v': Vol, s'': State, v'': Vol, i: nat, u: Uio, u': Uio, u'': Uio, t: nat,
                t': nat, sum: nat)
    requires i < |s.vnodes| && i < |s'.vnodes| && sum == t + t'
    requires IoStep(s, v, s', v', i, u, u', t) && IoStep(s', v', s'', v'', i, u', u'', t')
    ensures IoStep(s, v, s'', v'', i, u, u'', sum)
  {
    var ino := s.vnodes[i].ino;
    MovedTwice(Contents(v)[ino], Contents(v')[ino], Contents(v'')[ino], u, u', u'', t, t', sum);
  }

  lemma WholeBlocks(offset: nat, resid: nat)
    requires offset % BLOCKSIZE == 0
    ensures var t := resid / BLOCKSIZE * BLOCKSIZE;
            t <= resid < t + BLOCKSIZE && (offset + t) % BLOCKSIZE == 0 && (resid < BLOCKSIZE ==> t == 0)
            && (resid == BLOCKSIZE ==> t == resid)
  {}

  lemma RoomForBlock(offset: nat, resid: nat, i: nat, t: nat)
    requires offset % BLOCKSIZE == 0 && i < resid / BLOCKSIZE && t == i * BLOCKSIZE
    ensures (offset + t) % BLOCKSIZE == 0 && BLOCKSIZE <= resid - t && t + BLOCKSIZE == (i + 1) * BLOCKSIZE
  {}

  lemma NextBoundary(offset: nat)
    ensures (offset + (BLOCKSIZE - offset % BLOCKSIZE)) % BLOCKSIZE == 0
  {}

  /** Rewriting a mapped block of a file keeps everything in order. */
  lemma WriteMappedGood(s: State, v: Vol, i: nat, f: nat, blk: Block)
    requires Good(s, v) && i < |s.vnodes| && f < MAXFILEBLOCKS
    requires 0 < FilePtr(s.vnodes[i].inode, s.disk, f) < |s.disk|
    ensures var w := v.(disk := s.disk[FilePtr(s.vnodes[i].inode, s.disk, f) := blk]); Good(s.(disk := w.disk), w)
  {
    var b := FilePtr(s.vnodes[i].inode, s.disk, f);
    var w := v.(disk := s.disk[b := blk]);
    PtrOnDevice(s, v, i, f);
    WriteData(v, s.vnodes[i].ino, f, blk);
    MetaWrite(v, v.disk, b, blk);
    MetaKept(v, w.disk, DirtyInos(s.vnodes), s.bits);
  }

  /** ... and rewriting part of it is a splice into that file alone. */
  lemma WriteMapped(v: Vol, ino: nat, f: nat, skip: nat, data: seq<Byte>)
    requires Owned(v) && ino in v.files && f < MAXFILEBLOCKS && skip + |data| <= BLOCKSIZE
    requires 0 < FilePtr(v.files[ino], v.disk, f) < |v.disk|
    ensures var b := FilePtr(v.files[ino], v.disk, f);
            var w := v.(disk := v.disk[b := Splice(v.disk[b], skip, data)]);
            && Contents(w) == Contents(v)[ino := Splice(Contents(v)[ino], f * BLOCKSIZE + skip, data)]
  {
    var b := FilePtr(v.files[ino], v.disk, f);
    var blk := Splice(v.disk[b], skip, data);
    var w := v.(disk := v.disk[b := blk]);
    WriteData(v, ino, f, blk);
    SpliceBlock(v.files[ino], v.disk, w.files[ino], w.disk, f, skip, data);
  }

  /** The bytes a block of a file contributes to its contents. */
  lemma BlockOfContent(ip: Inode, d: seq<Block>, f: nat, skip: nat, n: nat)
    requires f < MAXFILEBLOCKS && skip + n <= BLOCKSIZE
    ensures FileBlock(ip, d, f)[skip..skip + n] == Content(ip, d)[f * BLOCKSIZE + skip..f * BLOCKSIZE + skip + n]
  {
    var o := f * BLOCKSIZE + skip;
    forall x: nat | o <= x < o + n
      ensures ContentByte(ip, d, x) == FileBlock(ip, d, f)[x - f * BLOCKSIZE]
    {
      assert x / BLOCKSIZE == f && x % BLOCKSIZE == x - f * BLOCKSIZE;
    }
  }

  /** When a block transfer fails: past the last mappable block, or for want of space for an unmapped one. */
  ghost predicate IoOutcome(s: State, v: Vol, v': Vol, i: nat, u: Uio, r: Status)
    requires i < |s.vnodes|
  {
    var f := u.offset / BLOCKSIZE;
    && (f >= MAXFILEBLOCKS <==> r == Fail(EINVAL))
    && (f < MAXFILEBLOCKS && r.Fail? ==>
          r.error == ENOSPC && u.rw == Write && FilePtr(s.vnodes[i].inode, s.disk, f) == 0 && NoSpace(v')
          && GrewByOne(v, v'))
  }

  /** Why a transfer stopped at u': at the last mappable block, or for want of space. */
  ghost predicate Stopped(u': Uio, v': Vol, r: Status) {
    || (r == Fail(EINVAL) && u'.offset >= MAXFILEBYTES)
    || (r == Fail(ENOSPC) && u'.offset < MAXFILEBYTES && u'.rw == Write && NoSpace(v'))
  }

  /** A failed transfer is short; one that lies within a block is all or nothing. */
  predicate ShortBy(u: Uio, t: nat) {
    && (u.resid > 0 ==> t < u.resid)
    && (u.offset % BLOCKSIZE + u.resid <= BLOCKSIZE ==> t == 0)
  }

  lemma SameMap(s: State, v: Vol, i: nat)
    requires Sound(s, v) && i < |s.vnodes|
    ensures MapStep(s, v, s, v, i)
  {
    assert v.files == v.files[s.vnodes[i].ino := s.vnodes[i].inode];
  }

  /** Moving out part of a block of a file is one I/O step. */
  lemma ReadBlock(s: State, v: Vol, i: nat, u: Uio, u': Uio, n: nat)
    requires Sound(s, v) && i < |s.vnodes| && u.Valid() && u.rw == Read && n <= u.resid
    requires u.offset / BLOCKSIZE < MAXFILEBLOCKS && u.offset % BLOCKSIZE + n <= BLOCKSIZE
    requires var (f, skip) := (u.offset / BLOCKSIZE, u.offset % BLOCKSIZE);
             u' == Uiomove(FileBlock(s.vnodes[i].inode, s.disk, f)[skip..skip + n], u).1
    ensures IoStep(s, v, s, v, i, u, u', n)
  {
    var (f, skip, ino) := (u.offset / BLOCKSIZE, u.offset % BLOCKSIZE, s.vnodes[i].ino);
    BlockOfContent(s.vnodes[i].inode, s.disk, f, skip, n);
    assert v.files == v.files[ino := s.vnodes[i].inode];
    assert Contents(v) == Contents(v)[ino := Contents(v)[ino]];
  }

  /** The request is for part of one block. */
  predicate InOneBlock(u: Uio) {
    0 < u.resid < BLOCKSIZE && u.offset % BLOCKSIZE + u.resid <= BLOCKSIZE
  }

  /** The request lies strictly within one block, and that block is mapped. */
  ghost predicate InMappedBlock(s: State, i: nat, u: Uio)
    requires i < |s.vnodes|
  {
    var f := u.offset / BLOCKSIZE;
    u.offset % BLOCKSIZE + u.resid <= BLOCKSIZE && u.resid < BLOCKSIZE && f < MAXFILEBLOCKS
    && FilePtr(s.vnodes[i].inode, s.disk, f) != 0
  }

  function Max(a: nat, b: nat): nat {
    if a > b then a else b
  }

  /** A value stored in an off_t, which has 32 bits and a sign. */
  function OffT(x: int): int {
    if x % 0x1_0000_0000 < 0x8000_0000 then x % 0x1_0000_0000 else x % 0x1_0000_0000 - 0x1_0000_0000
  }

  /** How much of a request is past end-of-file, in the code's arithmetic: the end position may wrap around. */
  function ExtraResid(size: Word, u: Uio): nat {
    var endpos := OffT(u.offset + u.resid);
    if endpos > OffT(size) then endpos - OffT(size) else 0
  }

  /** The number of bytes a read sets out to move. */
  function Wanted(size: Word, u: Uio): int {
    if u.offset >= OffT(size) then 0 else u.resid - ExtraResid(size, u)
  }

  /** The cut never takes more than there is. */
  lemma CutFits(size: Word, u: Uio)
    requires u.Valid() && u.offset < OffT(size)
    ensures ExtraResid(size, u) > 0 ==> ExtraResid(size, u) < u.resid
  {
    SumOffT(u.offset, u.resid);
  }

  lemma SumOffT(offset: nat, resid: nat)
    requires offset < 0x8000_0000 && resid < 0x1_0000_0000
    ensures offset + resid < 0x8000_0000 ==> OffT(offset + resid) == offset + resid
    ensures 0x8000_0000 <= offset + resid < 0x1_0000_0000 ==> OffT(offset + resid) < 0
    ensures 0x1_0000_0000 <= offset + resid ==> OffT(offset + resid) == offset + resid - 0x1_0000_0000
  {}

  /** A finished read: the bytes it set out to move, or those below the largest mappable offset. */
  ghost predicate ReadDone(s: State, v: Vol, i: nat, u: Uio, u': Uio, t: nat, r: Status)
    requires i < |s.vnodes|
  {
    var (ino, size) := (s.vnodes[i].ino, s.vnodes[i].inode.size);
    && ino in Contents(v) && Moved(Contents(v)[ino], Contents(v)[ino], u, u', t)
    && |Contents(v)[ino]| == MAXFILEBYTES && t <= Wanted(size, u)
    && (r.Success? ==> t == Wanted(size, u))
    && (r.Fail? ==> r.error == EINVAL && MAXFILEBYTES <= u.offset + t && (t < Wanted(size, u) || Wanted(size, u) == 0))
  }

  /**
   A read stays below end-of-file exactly if it starts past it, or its end
   position does not wrap around, or the file fills the map.
   */
  lemma ReadsBelowEof(s: State, v: Vol, i: nat, u: Uio, u': Uio, t: nat, r: Status)
    requires i < |s.vnodes| && ReadDone(s, v, i, u, u', t, r) && u.rw == Read && s.vnodes[i].inode.size < 0x8000_0000
    ensures var size := s.vnodes[i].inode.size;
            (t == 0 || u.offset + t <= size) <==>
              u.offset >= size || u.offset + u.resid < 0x8000_0000 || size >= MAXFILEBYTES
  {
    SumOffT(u.offset, u.resid);
  }

  /** The size after a write that ended at offset o. */
  function SizeAfter(size: Word, o: nat): nat {
    if o > OffT(size) then o else size
  }

  lemma SizeIsMax(size: Word, o: nat)
    requires size < 0x8000_0000
    ensures SizeAfter(size, o) == Max(size, o)
  {}

  /** A size beyond the block map comes only from such a size, or from a write issued at an offset beyond the map. */
  lemma SizePastMap(s: State, v: Vol, s': State, v': Vol, i: nat, u: Uio, u': Uio, t: nat)
    requires i < |s.vnodes| && WriteDone(s, v, s', v', i, u, u', t) && u.rw == Write
    requires s.vnodes[i].inode.size < 0x8000_0000
    ensures s'.vnodes[i].inode.size > MAXFILEBYTES <==> s.vnodes[i].inode.size > MAXFILEBYTES || u.offset > MAXFILEBYTES
  {
    SizeIsMax(s.vnodes[i].inode.size, u'.offset);
    assert Contents(v)[s.vnodes[i].ino] == Content(v.files[s.vnodes[i].ino], v.disk);
  }

  /** A finished write of t bytes: contents, size, and nothing else. */
  ghost predicate WriteDone(s: State, v: Vol, s': State, v': Vol, i: nat, u: Uio, u': Uio, t: nat)
    requires i < |s.vnodes|
  {
    var (ino, ip) := (s.vnodes[i].ino, s.vnodes[i].inode);
    && |s'.disk| == |s.disk|
    && |s'.vnodes| == |s.vnodes| && s'.vnodes == s.vnodes[i := s'.vnodes[i]]
    && s'.vnodes[i].ino == ino && s'.vnodes[i].refcount == s.vnodes[i].refcount
    && (var ip' := s'.vnodes[i].inode;
        && ip' == ip.(direct := ip'.direct, indirect := ip'.indirect, size := ip'.size)
        && ip'.size == SizeAfter(ip.size, u'.offset)
        && v'.files == v.files[ino := ip'])
    && ino in Contents(v) && ino in Contents(v') && Contents(v') == Contents(v)[ino := Contents(v')[ino]]
    && Moved(Contents(v)[ino], Contents(v')[ino], u, u', t)
  }

  lemma SizeAdjusted(s: State, v: Vol, s': State, v': Vol, s'': State, v'': Vol, i: nat, u: Uio, u': Uio, t: nat)
    requires i < |s.vnodes| && i < |s'.vnodes| && u.Valid() && IoStep(s, v, s', v', i, u, u', t)
    requires |s''.disk| == |s'.disk|
    requires Contents(v'') == Contents(v')
    requires var ip := s'.vnodes[i].inode;
             if u'.offset > OffT(ip.size)
             then u'.offset < 0x8000_0000
               && s''.vnodes == SetInode(s'.vnodes, i, ip.(size := u'.offset))
               && v''.files == v'.files[s'.vnodes[i].ino := ip.(size := u'.offset)]
             else s'' == s' && v'' == v'
    ensures WriteDone(s, v, s'', v'', i, u, u', t)
  {}

  /** Fields of an inode other than its pointers can be changed freely. */
  lemma Relabel(s: State, v: Vol, i: nat, ip: Inode)
    requires Good(s, v) && i < |s.vnodes|
    requires ip.direct == s.vnodes[i].inode.direct && ip.indirect == s.vnodes[i].inode.indirect
    ensures var w := v.(files := v.files[s.vnodes[i].ino := ip]);
            Good(s.(vnodes := SetInode(s.vnodes, i, ip)), w) && Contents(w) == Contents(v)
  {
    RelabelFile(v, s.vnodes[i].ino, ip);
    SetInodeOk(s.vnodes, v.files, i, ip);
  }

  /** Mapping a block, without moving anything, is an I/O step too. */
  lemma MappedOnly(s: State, v: Vol, s': State, v': Vol, i: nat, u: Uio, u': Uio, n: nat)
    requires i < |s.vnodes| && MapStep(s, v, s', v', i) && s.vnodes[i].ino in v.files && u.Valid()
    requires (u.rw == Read ==> s' == s && v' == v) && u' == u && n == 0
    ensures IoStep(s, v, s', v', i, u, u', n)
  {
    var ino := s.vnodes[i].ino;
    assert Contents(v') == Contents(v)[ino := Contents(v)[ino]];
  }

  /** Mapping a block and then writing it is one I/O step. */
  lemma WroteBlock(s: State, v: Vol, s': State, v': Vol, s'': State, v'': Vol, i: nat, u: Uio, u'': Uio, n: nat)
    requires i < |s.vnodes| && i < |s'.vnodes| && MapStep(s, v, s', v', i)
    requires u.Valid() && u.rw == Write && n <= u.resid && u.offset + n <= MAXFILEBYTES
    requires s.vnodes[i].ino in v.files
    requires |s''.disk| == |s'.disk| && s''.vnodes == s'.vnodes && v''.files == v'.files
    requires var ino := s.vnodes[i].ino;
             && ino in Contents(v') && |Contents(v')[ino]| == MAXFILEBYTES
             && Contents(v'') == Contents(v')[ino := Splice(Contents(v')[ino], u.offset, u.buf[u.pos..u.pos + n])]
    requires u'' == u.(offset := u.offset + n, resid := u.resid - n, pos := u.pos + n)
    ensures IoStep(s, v, s'', v'', i, u, u'', n)
  {
  }

  // ---- Truncation ------------------------------------------------------

  /** Whether sfs_truncate leaves block f alone: note the looser test for blocks behind the indirect block. */
  predicate Kept(blocklen: nat, f: nat) {
    if f < NDIRECT then f < blocklen else f <= blocklen
  }

  /** The indirect block is looked at, and no entry of it stays. */
  ghost predicate LosesIndirect(ip: Inode, d: seq<Block>, blocklen: nat) {
    && blocklen < MAXFILEBLOCKS - 1
    && forall f: nat {:trigger FilePtr(ip, d, f)} | NDIRECT <= f < MAXFILEBLOCKS && Kept(blocklen, f) ::
         FilePtr(ip, d, f) == 0
  }

  /** freed is the set of data blocks of file ino, among its first n blocks, that are not kept. */
  ghost predicate FreedUpTo(v: Vol, ino: nat, blocklen: nat, freed: set<nat>, n: nat) {
    && freed <= v.owner.Keys
    && forall b {:trigger b in freed} | b in v.owner ::
         b in freed <==> v.owner[b].Data? && v.owner[b].ino == ino && v.owner[b].f < n && !Kept(blocklen, v.owner[b].f)
  }

  lemma FreedNext(v: Vol, ino: nat, blocklen: nat, freed: set<nat>, n: nat)
    requires Owned(v) && ino in v.files && n < MAXFILEBLOCKS && FreedUpTo(v, ino, blocklen, freed, n)
    ensures var p := FilePtr(v.files[ino], v.disk, n);
            if !Kept(blocklen, n) && p != 0
            then p in v.owner && p !in freed && FreedUpTo(v, ino, blocklen, freed + {p}, n + 1)
            else FreedUpTo(v, ino, blocklen, freed, n + 1)
  {
    var p := FilePtr(v.files[ino], v.disk, n);
    assert OwnedPtr(v, ino, n);
    assert p in v.owner ==> OwnerPoints(v, p);
    forall b | b in v.owner && v.owner[b] == Data(ino, n)
      ensures b == p && p != 0
    {
      assert OwnerPoints(v, b);
    }
  }

  lemma {:induction false} FreedRest(v: Vol, ino: nat, blocklen: nat, freed: set<nat>, n: nat)
    requires Owned(v) && ino in v.files && n <= MAXFILEBLOCKS && FreedUpTo(v, ino, blocklen, freed, n)
    requires forall f: nat | n <= f < MAXFILEBLOCKS :: Kept(blocklen, f) || FilePtr(v.files[ino], v.disk, f) == 0
    ensures FreedUpTo(v, ino, blocklen, freed, MAXFILEBLOCKS)
    decreases MAXFILEBLOCKS - n
  {
    if n < MAXFILEBLOCKS {
      FreedNext(v, ino, blocklen, freed, n);
      FreedRest(v, ino, blocklen, freed, n + 1);
    }
  }

  /** The blocks a truncation gives back. */
  ghost predicate TruncFrees(v: Vol, ino: nat, blocklen: nat, b: nat)
    requires ino in v.files && b in v.owner
  {
    match v.owner[b]
    case Data(i, f) => i == ino && !Kept(blocklen, f)
    case Indirect(i) => i == ino && LosesIndirect(v.files[ino], v.disk, blocklen)
    case _ => false
  }

  /** w is v with file ino truncated to blocklen blocks: which pointers go, and which blocks. */
  ghost predicate Truncation(v: Vol, w: Vol, ino: nat, blocklen: nat) {
    && |w.disk| == |v.disk|
    && ino in v.files && ino in w.files && w.files == v.files[ino := w.files[ino]]
    && (forall b: nat {:trigger w.disk[b]} | b < |v.disk| && (b == 0 || b != v.files[ino].indirect) ::
          w.disk[b] == v.disk[b])
    && w.files[ino].indirect == (if LosesIndirect(v.files[ino], v.disk, blocklen) then 0 else v.files[ino].indirect)
    && (forall f: nat {:trigger FilePtr(w.files[ino], w.disk, f)} | f < MAXFILEBLOCKS ::
          FilePtr(w.files[ino], w.disk, f) == if Kept(blocklen, f) then FilePtr(v.files[ino], v.disk, f) else 0)
    && (forall b {:trigger b in w.owner} | b in v.owner :: b in w.owner <==> !TruncFrees(v, ino, blocklen, b))
    && (forall b {:trigger w.owner[b]} | b in w.owner :: b in v.owner && w.owner[b] == v.owner[b])
  }

  lemma TruncationShrinks(v: Vol, w: Vol, ino: nat, blocklen: nat)
    requires Owned(v) && Truncation(v, w, ino, blocklen)
    ensures Shrunk(v, w, ino)
  {
    forall b | b in v.owner
      ensures b in w.owner <==> !Dropped(w, ino, v.owner[b])
    {
      assert OwnerPoints(v, b);
      assert b in w.owner <==> !TruncFrees(v, ino, blocklen, b);
    }
  }

  /** The bytes that remain: those of kept blocks; the rest reads as zeros. */
  ghost predicate CutContent(c: seq<Byte>, c': seq<Byte>, blocklen: nat) {
    && |c'| == |c|
    && forall k: nat {:trigger c'[k]} | k < |c| :: c'[k] == if Kept(blocklen, k / BLOCKSIZE) then c[k] else 0
  }

  lemma TruncationContent(v: Vol, w: Vol, ino: nat, blocklen: nat)
    requires Owned(v) && Truncation(v, w, ino, blocklen)
    ensures Owned(w)
    ensures forall i | i in v.files && i != ino :: Content(w.files[i], w.disk) == Content(v.files[i], v.disk)
    ensures CutContent(Content(v.files[ino], v.disk), Content(w.files[ino], w.disk), blocklen)
  {
    TruncationShrinks(v, w, ino, blocklen);
    ShrinkFile(v, w, ino);
    var (c, c') := (Content(v.files[ino], v.disk), Content(w.files[ino], w.disk));
    forall k: nat | k < MAXFILEBYTES
      ensures c'[k] == if Kept(blocklen, k / BLOCKSIZE) then c[k] else 0
    {
      var f := k / BLOCKSIZE;
      assert f < MAXFILEBLOCKS;
      assert FilePtr(w.files[ino], w.disk, f) == if Kept(blocklen, f) then FilePtr(v.files[ino], v.disk, f) else 0;
      assert ContentByte(w.files[ino], w.disk, k) == FileBlock(w.files[ino], w.disk, f)[k % BLOCKSIZE];
    }
  }

  lemma TruncatedContents(v: Vol, w: Vol, ino: nat, blocklen: nat)
    requires Owned(v) && Truncation(v, w, ino, blocklen)
    ensures ino in Contents(v) && ino in Contents(w) && Contents(w) == Contents(v)[ino := Contents(w)[ino]]
    ensures CutContent(Contents(v)[ino], Contents(w)[ino], blocklen)
  {
    TruncationContent(v, w, ino, blocklen);
  }

  /** Byte k lies in the last block kept, or in the one behind it that the looser test keeps too. */
  predicate InKeptTail(len: nat, k: nat) {
    || (len % BLOCKSIZE != 0 && k / BLOCKSIZE == len / BLOCKSIZE)
    || (k / BLOCKSIZE == (len + BLOCKSIZE - 1) / BLOCKSIZE && k / BLOCKSIZE >= NDIRECT)
  }

  /**
   A byte past the new length would read as zero after a later extension exactly
   when it was zero or lies outside that tail.
   */
  lemma PastNewLength(c: seq<Byte>, c': seq<Byte>, len: nat, k: nat)
    requires CutContent(c, c', (len + BLOCKSIZE - 1) / BLOCKSIZE) && len <= k < |c|
    ensures c'[k] == 0 <==> c[k] == 0 || !InKeptTail(len, k)
  {
    TailBlocks(len, k);
    assert c'[k] == if Kept((len + BLOCKSIZE - 1) / BLOCKSIZE, k / BLOCKSIZE) then c[k] else 0;
  }

  lemma TailBlocks(len: nat, k: nat)
    requires len <= k
    ensures Kept((len + BLOCKSIZE - 1) / BLOCKSIZE, k / BLOCKSIZE) <==> InKeptTail(len, k)
  {
    var (q, m) := (len / 512, len % 512);
    assert (len + 511) / 512 == if m == 0 then q else q + 1;
    assert q <= k / 512;
  }

  /** Exactly the blocks in freed go. */
  ghost predicate FreedAll(v: Vol, ino: nat, blocklen: nat, freed: set<nat>)
    requires ino in v.files
  {
    && freed <= v.owner.Keys
    && forall b {:trigger b in freed} | b in v.owner :: b in freed <==> TruncFrees(v, ino, blocklen, b)
  }

  lemma DataAndIndirect(v: Vol, ino: nat, blocklen: nat, freed: set<nat>)
    requires Owned(v) && ino in v.files && FreedUpTo(v, ino, blocklen, freed, MAXFILEBLOCKS)
    ensures var p := v.files[ino].indirect;
            if p != 0 && LosesIndirect(v.files[ino], v.disk, blocklen)
            then p in v.owner && p !in freed && FreedAll(v, ino, blocklen, freed + {p})
            else FreedAll(v, ino, blocklen, freed)
  {
    var p := v.files[ino].indirect;
    assert OwnedIndirect(v, ino);
    forall b | b in v.owner
      ensures b in freed || (b == p && p != 0 && LosesIndirect(v.files[ino], v.disk, blocklen)) <==>
                TruncFrees(v, ino, blocklen, b)
    {
      assert OwnerPoints(v, b);
    }
  }

  lemma LosesIff(ip: Inode, d: seq<Block>, blocklen: nat, idbuf: seq<Word>, hasnonzero: bool)
    requires 0 < ip.indirect < |d| && |idbuf| == DBPERIDB && blocklen < MAXFILEBLOCKS - 1
    requires forall j: nat | j < DBPERIDB ::
               idbuf[j] == if Kept(blocklen, NDIRECT + j) then Words(d[ip.indirect])[j] else 0
    requires hasnonzero <==> exists j: nat :: j < DBPERIDB && idbuf[j] != 0
    ensures LosesIndirect(ip, d, blocklen) <==> !hasnonzero
  {
    forall f: nat | NDIRECT <= f < MAXFILEBLOCKS && Kept(blocklen, f)
      ensures FilePtr(ip, d, f) == idbuf[f - NDIRECT]
    {}
    if LosesIndirect(ip, d, blocklen) {
      forall j: nat | j < DBPERIDB
        ensures idbuf[j] == 0
      {
        assert FilePtr(ip, d, NDIRECT + j) == Words(d[ip.indirect])[j];
      }
    }
  }

  /** Assembling the result of sfs_truncate: new inode, possibly rewritten indirect block, blocks given back. */
  lemma MakeTruncation(v: Vol, ino: nat, blocklen: nat, ip: Inode, d: seq<Block>, freed: set<nat>)
    requires Owned(v) && ino in v.files && FreedAll(v, ino, blocklen, freed)
    requires |d| == |v.disk|
    requires forall b: nat {:trigger d[b]} | b < |v.disk| && (b == 0 || b != v.files[ino].indirect) :: d[b] == v.disk[b]
    requires ip.indirect == (if LosesIndirect(v.files[ino], v.disk, blocklen) then 0 else v.files[ino].indirect)
    requires forall f: nat {:trigger FilePtr(ip, d, f)} | f < MAXFILEBLOCKS ::
               FilePtr(ip, d, f) == if Kept(blocklen, f) then FilePtr(v.files[ino], v.disk, f) else 0
    ensures Truncation(v, Vol(d, v.files[ino := ip], v.owner - freed), ino, blocklen)
  {
    var w := Vol(d, v.files[ino := ip], v.owner - freed);
    forall b | b in v.owner
      ensures b in w.owner <==> !TruncFrees(v, ino, blocklen, b)
    {
      assert b in freed <==> TruncFrees(v, ino, blocklen, b);
    }
  }

  /** After a truncation the state is in order again. */
  lemma TruncationGood(s: State, v: Vol, w: Vol, i: nat, blocklen: nat, bits: seq<Byte>, mapDirty: bool)
    requires Good(s, v) && i < |s.vnodes| && Truncation(v, w, s.vnodes[i].ino, blocklen)
    requires MapOk(bits, |v.disk|, w.owner.Keys) && (mapDirty || (!s.mapDirty && bits == s.bits))
    ensures Good(State(w.disk, bits, mapDirty, SetInode(s.vnodes, i, w.files[s.vnodes[i].ino])), w)
  {
    var ino := s.vnodes[i].ino;
    TruncationContent(v, w, ino, blocklen);
    SetInodeOk(s.vnodes, v.files, i, w.files[ino]);
    assert OwnedIndirect(v, ino);
    forall b | b in v.owner && (v.owner[b].InodeBlock? || v.owner[b].Reserved?)
      ensures BlockAt(w.disk, b) == BlockAt(v.disk, b)
    {
      assert b < |v.disk| ==> w.disk[b] == v.disk[b];
    }
    MetaKept(v, w.disk, DirtyInos(s.vnodes), bits);
  }

  /** sfs_bfree; the assertion in bitmap_unmark is that b is marked. */
  method Bfree(bits: seq<Byte>, nblocks: nat, b: nat, ghost marked: set<nat>) returns (bits': seq<Byte>)
    requires MapOk(bits, nblocks, marked) && b in marked
    ensures MapOk(bits', nblocks, marked - {b})
  {
    MapSet(bits, nblocks, marked);
    bits' := UnmarkBitOf(bits, BitmapSize(nblocks), b);
    MapSet(bits', nblocks, marked - {b});
  }

  // ---- The file system object ------------------------------------------

  /** The offset on the device of every block fits in an off_t, in sfs_blockio as in sfs_rblock and sfs_wblock. */
  lemma BlockOffset(s: State, v: Vol, b: nat)
    requires Sound(s, v) && b < |s.disk|
    ensures OffT(b * BLOCKSIZE) == b * BLOCKSIZE
  {}

  /** A free block is past the superblock, the root's inode and the bitmap. */
  lemma FreeBlock(v: Vol, b: nat)
    requires Owned(v) && b < |v.disk| && b !in v.owner
    ensures b != 0 && (ROOT in v.files ==> MAPSTART + BitBlocks(|v.disk|) <= b)
  {
    assert !IsReserved(|v.disk|, b) && IsReserved(|v.disk|, 0);
    assert ROOT in v.files ==> OwnedInode(v, ROOT);
  }

  class Sfs {
    /** sp_nblocks, as read when the volume was mounted. */
    const nblocks: nat
    var s: State
    ghost var vol: Vol

    ghost predicate Valid()
      reads this
    {
      Good(s, vol) && |s.disk| == nblocks
    }

    /** A file system object with no vnode loaded; sfs_domount fills it in. */
    constructor (nblocks: nat, disk: seq<Block>, bits: seq<Byte>, ghost vol: Vol)
      ensures s == State(disk, bits, false, []) && this.vol == vol && this.nblocks == nblocks
    {
      this.nblocks := nblocks;
      this.s := State(disk, bits, false, []);
      this.vol := vol;
    }

    // ---- Space allocation ----

    /** sfs_balloc: the block handed out was free; it is marked and cleared. */
    method Balloc() returns (r: Result<Word>)
      requires Valid()
      modifies this`s
      ensures r.Err? <==> NoSpace(vol)
      ensures r.Err? ==> r.error == ENOSPC && s == old(s)
      ensures r.Ok? ==> r.value !in vol.owner && 0 < r.value < |old(s).disk|
      ensures r.Ok? && ROOT in vol.files ==> MAPSTART + BitBlocks(|s.disk|) <= r.value
      ensures r.Ok? ==> s == old(s).(disk := old(s).disk[r.value := Zero], bits := s.bits, mapDirty := true)
      ensures r.Ok? ==> MapOk(s.bits, |s.disk|, vol.owner.Keys + {r.value})
    {
      FullMap(vol);
      MapSet(s.bits, |s.disk|, vol.owner.Keys);
      var a, bits := AllocBit(s.bits, BitmapSize(|s.disk|));
      if a.Err? {
        return Err(a.error);
      }
      var b := a.value;
      MapSet(bits, |s.disk|, vol.owner.Keys + {b});
      FreeBlock(vol, b);
      s := s.(disk := s.disk[b := Zero], bits := bits, mapDirty := true);
      return Ok(b);
    }

    /** sfs_bused. */
    method Bused(b: nat) returns (used: bool)
      requires Valid() && b < |s.disk|
      ensures used <==> b in vol.owner
    {
      assert |s.disk| <= BitmapSize(|s.disk|);
      used := BitAt(s.bits, b);
    }

    /** Hook a new block into direct slot f (sfs_bmap, direct case). */
    method AllocDirect(sv: nat, f: nat) returns (r: Result<Word>)
      requires Valid() && sv < |s.vnodes| && f < NDIRECT && s.vnodes[sv].inode.direct[f] == 0
      modifies this
      ensures Valid() && MapStep(old(s), old(vol), s, vol, sv)
      ensures r.Err? <==> old(NoSpace(vol))
      ensures r.Err? ==> r.error == ENOSPC && s == old(s) && vol == old(vol)
      ensures r.Ok? ==> r.value != 0 && s.vnodes[sv].inode.direct[f] == r.value
    {
      r := Balloc();
      var ino, ip := s.vnodes[sv].ino, s.vnodes[sv].inode;
      if r.Ok? {
        var b := r.value;
        var ip' := ip.(direct := ip.direct[f := b]);
        HookDirect(old(s), vol, sv, f, b, s.bits);
        s := s.(vnodes := SetInode(s.vnodes, sv, ip'));
        vol := Vol(s.disk, vol.files[ino := ip'], vol.owner[b := Data(ino, f)]);
      } else {
        assert vol.files == vol.files[ino := ip];
      }
    }

    /** Give the file an indirect block. */
    method AllocIndirect(sv: nat) returns (r: Result<Word>)
      requires Valid() && sv < |s.vnodes| && s.vnodes[sv].inode.indirect == 0
      modifies this
      ensures Valid() && MapStep(old(s), old(vol), s, vol, sv)
      ensures r.Err? <==> old(NoSpace(vol))
      ensures r.Err? ==> r.error == ENOSPC && s == old(s) && vol == old(vol)
      ensures r.Ok? ==> 0 < r.value < |s.disk| && s.vnodes[sv].inode.indirect == r.value && s.disk[r.value] == Zero
      ensures GrewByOne(old(vol), vol)
    {
      r := Balloc();
      var ino, ip := s.vnodes[sv].ino, s.vnodes[sv].inode;
      if r.Ok? {
        var b := r.value;
        var ip' := ip.(indirect := b);
        HookIndirect(old(s), vol, sv, b, s.bits);
        s := s.(vnodes := SetInode(s.vnodes, sv, ip'));
        vol := Vol(s.disk, vol.files[ino := ip'], vol.owner[b := Indirect(ino)]);
        assert OnlyNew(old(vol), vol, b);
      } else {
        assert vol.files == vol.files[ino := ip];
        assert OnlyNew(old(vol), vol, 0);
      }
    }

    /** Hook a new block into entry j of the indirect block held in idbuf, and write that back. */
    method AllocEntry(sv: nat, idbuf: seq<Word>, j: nat) returns (r: Result<Word>)
      requires Valid() && sv < |s.vnodes| && 0 < s.vnodes[sv].inode.indirect < |s.disk|
      requires idbuf == Words(s.disk[s.vnodes[sv].inode.indirect]) && j < DBPERIDB && idbuf[j] == 0
      modifies this
      ensures Valid() && MapStep(old(s), old(vol), s, vol, sv)
      ensures r.Err? <==> old(NoSpace(vol))
      ensures r.Err? ==> r.error == ENOSPC && s == old(s) && vol == old(vol)
      ensures r.Ok? ==> r.value != 0 && FilePtr(s.vnodes[sv].inode, s.disk, NDIRECT + j) == r.value
    {
      IndirectOnDevice(s, vol, sv);
      r := Balloc();
      var ino, idblock := s.vnodes[sv].ino, s.vnodes[sv].inode.indirect;
      assert vol.files == vol.files[ino := s.vnodes[sv].inode];
      if r.Ok? {
        var b := r.value;
        HookEntry(old(s), vol, sv, j, b, s.bits);
        assert idblock != b;
        assert idbuf == Words(s.disk[idblock]);
        s := s.(disk := s.disk[idblock := FromWords(idbuf[j := b])]);
        vol := Vol(s.disk, vol.files, vol.owner[b := Data(ino, NDIRECT + j)]);
      }
    }

    /** sfs_bmap: the disk block of block f of a file, allocating it on request. */
    method Bmap(sv: nat, f: nat, doalloc: bool) returns (r: Result<Word>)
      requires Valid() && sv < |s.vnodes|
      modifies this
      ensures Valid() && MapStep(old(s), old(vol), s, vol, sv)
      ensures f >= MAXFILEBLOCKS ==> r == Err(EINVAL) && s == old(s) && vol == old(vol)
      ensures f < MAXFILEBLOCKS && (!doalloc || FilePtr(old(s).vnodes[sv].inode, old(s).disk, f) != 0) ==>
                s == old(s) && vol == old(vol) && r == Ok(FilePtr(s.vnodes[sv].inode, s.disk, f))
      ensures f < MAXFILEBLOCKS && doalloc && r.Ok? ==>
                r.value == FilePtr(s.vnodes[sv].inode, s.disk, f) && r.value != 0
      ensures f < MAXFILEBLOCKS && r.Err? ==> r.error == ENOSPC && NoSpace(vol) && GrewByOne(old(vol), vol)
    {
      var ino := s.vnodes[sv].ino;
      assert vol.files == vol.files[ino := s.vnodes[sv].inode];
      if f < NDIRECT {
        var block := s.vnodes[sv].inode.direct[f];
        if block == 0 && doalloc {
          r := AllocDirect(sv, f);
          if r.Err? {
            assert OnlyNew(old(vol), vol, 0);
            return;
          }
          block := r.value;
        }
        CheckUsed(sv, f, block);
        return Ok(block);
      }
      var idnum, idoff := (f - NDIRECT) / DBPERIDB, (f - NDIRECT) % DBPERIDB;
      if idnum > 0 {
        return Err(EINVAL);
      }
      assert NDIRECT + idoff == f;
      r := BmapIndirect(sv, idoff, doalloc);
    }

    /** Load the indirect block, or allocate one and clear the buffer. */
    method LoadIndirect(sv: nat) returns (r: Result<seq<Word>>)
      requires Valid() && sv < |s.vnodes|
      modifies this
      ensures Valid() && MapStep(old(s), old(vol), s, vol, sv)
      ensures old(s).vnodes[sv].inode.indirect != 0 ==> r.Ok? && s == old(s) && vol == old(vol)
      ensures r.Ok? ==> var p := s.vnodes[sv].inode.indirect; 0 < p < |s.disk| && r.value == Words(s.disk[p])
      ensures r.Err? ==> r.error == ENOSPC && NoSpace(vol)
      ensures GrewByOne(old(vol), vol)
    {
      var idblock := s.vnodes[sv].inode.indirect;
      IndirectOnDevice(s, vol, sv);
      if idblock == 0 {
        var a := AllocIndirect(sv);
        if a.Err? {
          return Err(a.error);
        }
        ZeroBufWords();
        return Ok(ZeroBuf());
      }
      assert vol.files == vol.files[s.vnodes[sv].ino := s.vnodes[sv].inode];
      assert OnlyNew(old(vol), vol, 0);
      return Ok(Words(s.disk[idblock]));
    }

    /** sfs_bmap, when the block is mapped by entry j of the indirect block. */
    method BmapIndirect(sv: nat, j: nat, doalloc: bool) returns (r: Result<Word>)
      requires Valid() && sv < |s.vnodes| && j < DBPERIDB
      modifies this
      ensures Valid() && MapStep(old(s), old(vol), s, vol, sv)
      ensures !doalloc || FilePtr(old(s).vnodes[sv].inode, old(s).disk, NDIRECT + j) != 0 ==>
                s == old(s) && vol == old(vol) && r == Ok(FilePtr(s.vnodes[sv].inode, s.disk, NDIRECT + j))
      ensures doalloc && r.Ok? ==> r.value == FilePtr(s.vnodes[sv].inode, s.disk, NDIRECT + j) && r.value != 0
      ensures r.Err? ==> r.error == ENOSPC && NoSpace(vol) && GrewByOne(old(vol), vol)
    {
      if s.vnodes[sv].inode.indirect == 0 && !doalloc {
        assert vol.files == vol.files[s.vnodes[sv].ino := s.vnodes[sv].inode];
        return Ok(0);
      }
      var buf := LoadIndirect(sv);
      if buf.Err? {
        return Err(buf.error);
      }
      var block := buf.value[j];
      assert block == FilePtr(s.vnodes[sv].inode, s.disk, NDIRECT + j);
      if block == 0 && doalloc {
        ghost var s1, v1 := s, vol;
        r := AllocEntry(sv, buf.value, j);
        MapTwice(old(s), old(vol), s1, v1, s, vol, sv);
        if r.Err? {
          return;
        }
        block := r.value;
      }
      CheckUsed(sv, NDIRECT + j, block);
      return Ok(block);
    }

    /** The check at the end of sfs_bmap: a mapped block is on the device and marked, or the kernel panics. */
    method CheckUsed(sv: nat, f: nat, block: Word)
      requires Valid() && sv < |s.vnodes| && f < MAXFILEBLOCKS && block == FilePtr(s.vnodes[sv].inode, s.disk, f)
    {
      if block != 0 {
        PtrOnDevice(s, vol, sv, f);
        var used := Bused(block);
        assert used;
      }
    }

    // ---- File-level I/O ----

    /** sfs_partialio, reading: len bytes within one block, starting skip bytes into it. */
    method PartialRead(sv: nat, u: Uio, skip: nat, len: nat) returns (r: Status, u': Uio)
      requires Valid() && sv < |s.vnodes| && u.Valid() && u.rw == Read
      requires skip == u.offset % BLOCKSIZE && skip + len <= BLOCKSIZE && len <= u.resid
      modifies this
      ensures s == old(s) && vol == old(vol)
      ensures r.Success? ==> IoStep(s, vol, s, vol, sv, u, u', len)
      ensures r.Fail? ==> IoStep(s, vol, s, vol, sv, u, u', 0)
      ensures IoOutcome(s, vol, vol, sv, u, r)
    {
      var f := u.offset / BLOCKSIZE;
      var m := Bmap(sv, f, false);
      if m.Err? {
        r, u' := Fail(m.error), u;
        MappedOnly(s, vol, s, vol, sv, u, u', 0);
        return;
      }
      var diskblock := m.value;
      PtrOnDevice(s, vol, sv, f);
      var iobuf := if diskblock == 0 then Zero else s.disk[diskblock];
      assert iobuf == FileBlock(s.vnodes[sv].inode, s.disk, f);
      r, u' := Success, Uiomove(iobuf[skip..skip + len], u).1;
      ReadBlock(s, vol, sv, u, u', len);
    }

    /** sfs_partialio, writing: the rest of the block is read first and kept. */
    method PartialWrite(sv: nat, u: Uio, skip: nat, len: nat) returns (r: Status, u': Uio)
      requires Valid() && sv < |s.vnodes| && u.Valid() && u.rw == Write
      requires skip == u.offset % BLOCKSIZE && skip + len <= BLOCKSIZE && len <= u.resid
      modifies this
      ensures Valid()
      ensures r.Success? ==> IoStep(old(s), old(vol), s, vol, sv, u, u', len)
      ensures r.Fail? ==> IoStep(old(s), old(vol), s, vol, sv, u, u', 0)
      ensures IoOutcome(old(s), old(vol), vol, sv, u, r)
    {
      var f := u.offset / BLOCKSIZE;
      var m := Bmap(sv, f, true);
      if m.Err? {
        r, u' := Fail(m.error), u;
        MappedOnly(old(s), old(vol), s, vol, sv, u, u', 0);
        return;
      }
      var diskblock := m.value;
      assert diskblock != 0;
      PtrOnDevice(s, vol, sv, f);
      var iobuf := s.disk[diskblock];
      var (k, v) := Uiomove(iobuf[skip..skip + len], u);
      assert v == u.(offset := u.offset + len, resid := u.resid - len, pos := u.pos + len);
      assert k == u.buf[u.pos..u.pos + len] && |k| == len;
      assert f * BLOCKSIZE + skip == u.offset;
      r, u' := Success, v;
      WriteBack(sv, f, skip, diskblock, Splice(iobuf, skip, k), k, old(s), old(vol), u, u', len);
    }

    /** The write half of block I/O: sfs_wblock of a block that bmap has mapped. */
    method WriteBack(sv: nat, f: nat, skip: nat, diskblock: Word, iobuf: Block,
                     ghost data: seq<Byte>, ghost s0: State, ghost v0: Vol, ghost u: Uio, ghost u': Uio, ghost n: nat)
      requires Valid() && sv < |s.vnodes| && f < MAXFILEBLOCKS && skip + |data| <= BLOCKSIZE
      requires 0 < diskblock < |s.disk| && diskblock == FilePtr(s.vnodes[sv].inode, s.disk, f)
      requires iobuf == Splice(s.disk[diskblock], skip, data)
      requires sv < |s0.vnodes| && s0.vnodes[sv].ino in v0.files && MapStep(s0, v0, s, vol, sv)
      requires u.Valid() && u.rw == Write && |data| <= u.resid && data == u.buf[u.pos..u.pos + |data|]
      requires u.offset == f * BLOCKSIZE + skip && n == |data|
      requires u' == u.(offset := u.offset + n, resid := u.resid - n, pos := u.pos + n)
      modifies this
      ensures Valid() && IoStep(s0, v0, s, vol, sv, u, u', n)
    {
      ghost var s1, v1 := s, vol;
      WriteMappedGood(s, vol, sv, f, iobuf);
      WriteMapped(vol, s.vnodes[sv].ino, f, skip, data);
      s := s.(disk := s.disk[diskblock := iobuf]);
      vol := vol.(disk := s.disk);
      WroteBlock(s0, v0, s1, v1, s, vol, sv, u, u', n);
    }

    /** sfs_partialio. */
    method PartialIo(sv: nat, u: Uio, skip: nat, len: nat) returns (r: Status, u': Uio, ghost n: nat)
      requires Valid() && sv < |s.vnodes| && u.Valid()
      requires skip == u.offset % BLOCKSIZE && skip + len <= BLOCKSIZE && len <= u.resid
      modifies this
      ensures Valid() && IoStep(old(s), old(vol), s, vol, sv, u, u', n)
      ensures n == if r.Success? then len else 0
      ensures IoOutcome(old(s), old(vol), vol, sv, u, r)
    {
      if u.rw == Read {
        r, u' := PartialRead(sv, u, skip, len);
      } else {
        r, u' := PartialWrite(sv, u, skip, len);
      }
      n := if r.Success? then len else 0;
    }

    /** sfs_blockio: a whole block, moved directly between the device and the request. */
    method BlockIo(sv: nat, u: Uio) returns (r: Status, u': Uio, ghost n: nat)
      requires Valid() && sv < |s.vnodes| && u.Valid() && u.offset % BLOCKSIZE == 0 && BLOCKSIZE <= u.resid
      modifies this
      ensures Valid() && IoStep(old(s), old(vol), s, vol, sv, u, u', n)
      ensures n == if r.Success? then BLOCKSIZE else 0
      ensures IoOutcome(old(s), old(vol), vol, sv, u, r)
    {
      var f := u.offset / BLOCKSIZE;
      var m := Bmap(sv, f, u.rw == Write);
      if m.Err? {
        r, u', n := Fail(m.error), u, 0;
        MappedOnly(old(s), old(vol), s, vol, sv, u, u', n);
        return;
      }
      var diskblock := m.value;
      PtrOnDevice(s, vol, sv, f);
      if u.rw == Read {
        var block := if diskblock == 0 then Zero else s.disk[diskblock];
        assert FileBlock(s.vnodes[sv].inode, s.disk, f)[0..BLOCKSIZE] == block;
        r, u', n := Success, Uiomove(block, u).1, BLOCKSIZE;
        ReadBlock(s, vol, sv, u, u', n);
        return;
      }
      assert diskblock != 0;
      var (k, v) := Uiomove(s.disk[diskblock], u);
      assert v == u.(offset := u.offset + BLOCKSIZE, resid := u.resid - BLOCKSIZE, pos := u.pos + BLOCKSIZE);
      assert k == Splice(s.disk[diskblock], 0, k) && f * BLOCKSIZE == u.offset;
      r, u', n := Success, v, BLOCKSIZE;
      WriteBack(sv, f, 0, diskblock, k, k, old(s), old(vol), u, u', n);
    }

    /** One round of the loop over whole blocks, after t bytes moved since the state s0, v0. */
    method NextBlock(sv: nat, u: Uio, ghost s0: State, ghost v0: Vol, ghost u0: Uio, ghost t: nat)
      returns (r: Status, u': Uio, ghost t': nat)
      requires Valid() && sv < |s.vnodes| && sv < |s0.vnodes| && IoStep(s0, v0, s, vol, sv, u0, u, t)
      requires u.Valid() && u.offset % BLOCKSIZE == 0 && BLOCKSIZE <= u.resid
      modifies this
      ensures Valid() && IoStep(s0, v0, s, vol, sv, u0, u', t')
      ensures r.Success? ==> t' == t + BLOCKSIZE
      ensures r.Fail? ==> t' == t && Stopped(u', vol, r)
    {
      ghost var s1, v1, n := s, vol, 0;
      r, u', n := BlockIo(sv, u);
      t' := t + n;
      IoTwice(s0, v0, s1, v1, s, vol, sv, u0, u, u', t, n, t');
    }

    /** The whole blocks of sfs_io. */
    method BlockLoop(sv: nat, u: Uio) returns (r: Status, u': Uio, ghost t: nat)
      requires Valid() && sv < |s.vnodes| && u.Valid() && u.offset % BLOCKSIZE == 0
      modifies this
      ensures Valid() && IoStep(old(s), old(vol), s, vol, sv, u, u', t)
      ensures r.Success? ==> t == u.resid / BLOCKSIZE * BLOCKSIZE
      ensures r.Fail? ==> t + BLOCKSIZE <= u.resid && Stopped(u', vol, r)
      ensures u.resid < BLOCKSIZE ==> s == old(s) && vol == old(vol) && u' == u
    {
      var nblocks := u.resid / BLOCKSIZE;
      r, u', t := Success, u, 0;
      SameMap(s, vol, sv);
      MappedOnly(s, vol, s, vol, sv, u, u', t);
      for i := 0 to nblocks
        invariant Valid() && r.Success? && t == i * BLOCKSIZE
        invariant IoStep(old(s), old(vol), s, vol, sv, u, u', t)
        invariant i == 0 ==> s == old(s) && vol == old(vol) && u' == u
      {
        RoomForBlock(u.offset, u.resid, i, t);
        r, u', t := NextBlock(sv, u', old(s), old(vol), u, t);
        if r.Fail? {
          return;
        }
      }
    }

    /** sfs_io: the leading partial block, up to the next block boundary. */
    method LeadingPart(sv: nat, u: Uio) returns (r: Status, u': Uio, ghost t: nat)
      requires Valid() && sv < |s.vnodes| && u.Valid()
      modifies this
      ensures Valid() && IoStep(old(s), old(vol), s, vol, sv, u, u', t)
      ensures u.offset % BLOCKSIZE == 0 ==> r.Success? && t == 0 && s == old(s) && vol == old(vol)
      ensures u.offset % BLOCKSIZE != 0 ==> IoOutcome(old(s), old(vol), vol, sv, u, r)
      ensures r.Success? ==> t == u.resid || (u.offset + t) % BLOCKSIZE == 0
      ensures r.Success? && u.offset % BLOCKSIZE != 0 && u.offset % BLOCKSIZE + u.resid <= BLOCKSIZE ==> t == u.resid
      ensures r.Fail? ==> t == 0 && Stopped(u', vol, r)
    {
      var blkoff := u.offset % BLOCKSIZE;
      if blkoff == 0 {
        r, u', t := Success, u, 0;
        SameMap(s, vol, sv);
        MappedOnly(s, vol, s, vol, sv, u, u', t);
        return;
      }
      var len := if BLOCKSIZE - blkoff > u.resid then u.resid else BLOCKSIZE - blkoff;
      NextBoundary(u.offset);
      r, u', t := PartialIo(sv, u, blkoff, len);
    }

    /** sfs_io: the whole blocks and the trailing partial block, from a block boundary on. */
    method AlignedPart(sv: nat, u: Uio) returns (r: Status, u': Uio, ghost t: nat)
      requires Valid() && sv < |s.vnodes| && u.Valid() && u.offset % BLOCKSIZE == 0
      modifies this
      ensures Valid() && IoStep(old(s), old(vol), s, vol, sv, u, u', t)
      ensures r.Success? ==> t == u.resid
      ensures r.Fail? ==> Stopped(u', vol, r) && t < u.resid && (u.resid <= BLOCKSIZE ==> t == 0)
      ensures 0 < u.resid < BLOCKSIZE ==> IoOutcome(old(s), old(vol), vol, sv, u, r)
    {
      WholeBlocks(u.offset, u.resid);
      r, u', t := BlockLoop(sv, u);
      if r.Fail? {
        return;
      }
      assert u'.resid < BLOCKSIZE;
      if u'.resid > 0 {
        r, u', t := TrailingPart(sv, u', old(s), old(vol), u, t);
      }
    }

    method TrailingPart(sv: nat, u: Uio, ghost s0: State, ghost v0: Vol, ghost u0: Uio, ghost t: nat)
      returns (r: Status, u': Uio, ghost t': nat)
      requires Valid() && sv < |s.vnodes| && sv < |s0.vnodes| && IoStep(s0, v0, s, vol, sv, u0, u, t)
      requires u.Valid() && u.offset % BLOCKSIZE == 0 && u.resid < BLOCKSIZE
      modifies this
      ensures Valid() && IoStep(s0, v0, s, vol, sv, u0, u', t')
      ensures r.Success? ==> t' == t + u.resid
      ensures r.Fail? ==> t' == t && Stopped(u', vol, r)
      ensures IoOutcome(old(s), old(vol), vol, sv, u, r)
    {
      ghost var s1, v1, n := s, vol, 0;
      r, u', n := PartialIo(sv, u, 0, u.resid);
      t' := t + n;
      IoTwice(s0, v0, s1, v1, s, vol, sv, u0, u, u', t, n, t');
    }

    /** sfs_io between its treatment of end-of-file and of the file size. */
    method Transfer(sv: nat, u: Uio) returns (r: Status, u': Uio, ghost t: nat)
      requires Valid() && sv < |s.vnodes| && u.Valid()
      modifies this
      ensures Valid() && IoStep(old(s), old(vol), s, vol, sv, u, u', t)
      ensures r.Success? ==> t == u.resid
      ensures r.Fail? ==> Stopped(u', vol, r) && ShortBy(u, t)
      ensures u.resid > 0 && InMappedBlock(old(s), sv, u) ==> r.Success?
      ensures r == Fail(ENOSPC) && InOneBlock(u) ==> GrewByOne(old(vol), vol)
    {
      r, u', t := LeadingPart(sv, u);
      if r.Fail? || u'.resid == 0 {
        return;
      }
      assert u'.offset % BLOCKSIZE == 0;
      r, u', t := Rest(sv, u', old(s), old(vol), u, t);
    }

    method Rest(sv: nat, u: Uio, ghost s0: State, ghost v0: Vol, ghost u0: Uio, ghost t: nat)
      returns (r: Status, u': Uio, ghost t': nat)
      requires Valid() && sv < |s.vnodes| && sv < |s0.vnodes| && IoStep(s0, v0, s, vol, sv, u0, u, t)
      requires u.Valid() && u.offset % BLOCKSIZE == 0
      modifies this
      ensures Valid() && IoStep(s0, v0, s, vol, sv, u0, u', t')
      ensures r.Success? ==> t' == t + u.resid
      ensures r.Fail? ==> Stopped(u', vol, r) && t' < t + u.resid && (u.resid <= BLOCKSIZE ==> t' == t)
      ensures 0 < u.resid < BLOCKSIZE ==> IoOutcome(old(s), old(vol), vol, sv, u, r)
    {
      ghost var s1, v1, n := s, vol, 0;
      r, u', n := AlignedPart(sv, u);
      t' := t + n;
      IoTwice(s0, v0, s1, v1, s, vol, sv, u0, u, u', t, n, t');
    }

    /** Store a changed inode in its vnode and mark it dirty; its pointers stay as they are. */
    method PutInode(sv: nat, ip: Inode)
      requires Valid() && sv < |s.vnodes|
      requires ip.direct == s.vnodes[sv].inode.direct && ip.indirect == s.vnodes[sv].inode.indirect
      modifies this
      ensures Valid() && Contents(vol) == old(Contents(vol))
      ensures s == old(s).(vnodes := SetInode(old(s).vnodes, sv, ip))
      ensures vol == old(vol).(files := old(vol).files[s.vnodes[sv].ino := ip])
    {
      Relabel(s, vol, sv, ip);
      vol := vol.(files := vol.files[s.vnodes[sv].ino := ip]);
      s := s.(vnodes := SetInode(s.vnodes, sv, ip));
    }

    /**
     sfs_io. A read moves exactly the bytes below end-of-file; a write replaces exactly
     the bytes it moved and makes the file at least that long. Either stops early only at
     the largest mappable offset or, writing, when no block is free.
     */
    method Io(sv: nat, u: Uio) returns (r: Status, u': Uio, ghost t: nat)
      requires Valid() && sv < |s.vnodes| && u.Valid()
      modifies this
      ensures Valid()
      ensures u.rw == Write ==> WriteDone(old(s), old(vol), s, vol, sv, u, u', t)
      ensures u.rw == Write && r.Success? ==> t == u.resid
      ensures u.rw == Write && r.Fail? ==> Stopped(u', vol, r) && ShortBy(u, t)
      ensures u.rw == Write && u.resid > 0 && InMappedBlock(old(s), sv, u) ==> r.Success?
      ensures u.rw == Write && r == Fail(ENOSPC) && InOneBlock(u) ==> GrewByOne(old(vol), vol)
      ensures u.rw == Read ==> s == old(s) && vol == old(vol) && ReadDone(s, vol, sv, u, u', t, r)
    {
      if u.rw == Read {
        r, u', t := IoRead(sv, u);
      } else {
        r, u', t := Transfer(sv, u);
        ghost var s1, v1 := s, vol;
        var ip := s.vnodes[sv].inode;
        if u'.offset > OffT(ip.size) {
          PutInode(sv, ip.(size := u'.offset));
        }
        SizeAdjusted(old(s), old(vol), s1, v1, s, vol, sv, u, u', t);
        GrewOn(old(vol), v1, vol);
      }
    }

    /** sfs_io, reading: the request is first cut off at end-of-file. */
    method IoRead(sv: nat, u: Uio) returns (r: Status, u': Uio, ghost t: nat)
      requires Valid() && sv < |s.vnodes| && u.Valid() && u.rw == Read
      modifies this
      ensures s == old(s) && vol == old(vol) && ReadDone(s, vol, sv, u, u', t, r)
    {
      var size := OffT(s.vnodes[sv].inode.size);
      if u.offset >= size {
        return Success, u, 0;
      }
      var endpos := OffT(u.offset + u.resid);
      var extra := if endpos > size then endpos - size else 0;
      CutFits(s.vnodes[sv].inode.size, u);
      assert extra > 0 ==> u.resid > extra;
      var cut := u.(resid := u.resid - extra);
      r, u', t := Transfer(sv, cut);
      u' := u'.(resid := u'.resid + extra);
    }

    // ---- Truncation ----

    /** sfs_truncate: the loop over the direct blocks. */
    method FreeDirect(sv: nat, blocklen: nat) returns (ip: Inode, bits: seq<Byte>, ghost freed: set<nat>)
      requires Valid() && sv < |s.vnodes|
      ensures var ip0 := s.vnodes[sv].inode;
              && ip == ip0.(direct := ip.direct)
              && forall f: nat | f < NDIRECT :: ip.direct[f] == if Kept(blocklen, f) then ip0.direct[f] else 0
      ensures FreedUpTo(vol, s.vnodes[sv].ino, blocklen, freed, NDIRECT)
      ensures MapOk(bits, |s.disk|, vol.owner.Keys - freed) && (freed == {} ==> bits == s.bits)
    {
      ip, bits, freed := s.vnodes[sv].inode, s.bits, {};
      ghost var ino := s.vnodes[sv].ino;
      assert vol.owner.Keys - freed == vol.owner.Keys;
      for i := 0 to NDIRECT
        invariant ip == s.vnodes[sv].inode.(direct := ip.direct)
        invariant forall f: nat | f < NDIRECT ::
                    ip.direct[f] == if f >= i || Kept(blocklen, f) then s.vnodes[sv].inode.direct[f] else 0
        invariant FreedUpTo(vol, ino, blocklen, freed, i)
        invariant MapOk(bits, |s.disk|, vol.owner.Keys - freed) && (freed == {} ==> bits == s.bits)
      {
        var block := ip.direct[i];
        FreedNext(vol, ino, blocklen, freed, i);
        if i >= blocklen && block != 0 {
          bits := Bfree(bits, |s.disk|, block, vol.owner.Keys - freed);
          ip := ip.(direct := ip.direct[i := 0]);
          assert vol.owner.Keys - freed - {block} == vol.owner.Keys - (freed + {block});
          freed := freed + {block};
        }
      }
    }

    /** sfs_truncate: the loop over the entries of the indirect block. */
    method FreeEntries(sv: nat, blocklen: nat, bits0: seq<Byte>, ghost freed0: set<nat>)
      returns (idbuf: seq<Word>, hasnonzero: bool, iddirty: bool, bits: seq<Byte>, ghost freed: set<nat>)
      requires Valid() && sv < |s.vnodes| && 0 < s.vnodes[sv].inode.indirect < |s.disk|
      requires FreedUpTo(vol, s.vnodes[sv].ino, blocklen, freed0, NDIRECT)
      requires MapOk(bits0, |s.disk|, vol.owner.Keys - freed0)
      ensures var ws := Words(s.disk[s.vnodes[sv].inode.indirect]);
              && |idbuf| == DBPERIDB
              && (forall j: nat | j < DBPERIDB :: idbuf[j] == if Kept(blocklen, NDIRECT + j) then ws[j] else 0)
              && (hasnonzero <==> exists j: nat :: j < DBPERIDB && idbuf[j] != 0)
              && (!iddirty ==> idbuf == ws && bits == bits0 && freed == freed0)
      ensures FreedUpTo(vol, s.vnodes[sv].ino, blocklen, freed, MAXFILEBLOCKS)
      ensures MapOk(bits, |s.disk|, vol.owner.Keys - freed)
    {
      ghost var ino := s.vnodes[sv].ino;
      var ws := Words(s.disk[s.vnodes[sv].inode.indirect]);
      idbuf, hasnonzero, iddirty, bits, freed := ws, false, false, bits0, freed0;
      for j := 0 to DBPERIDB
        invariant |idbuf| == DBPERIDB
        invariant forall k: nat | k < DBPERIDB :: idbuf[k] == if k >= j || Kept(blocklen, NDIRECT + k) then ws[k] else 0
        invariant hasnonzero <==> exists k: nat :: k < j && idbuf[k] != 0
        invariant !iddirty ==> idbuf == ws && bits == bits0 && freed == freed0
        invariant FreedUpTo(vol, ino, blocklen, freed, NDIRECT + j)
        invariant MapOk(bits, |s.disk|, vol.owner.Keys - freed)
      {
        var block := idbuf[j];
        FreedNext(vol, ino, blocklen, freed, NDIRECT + j);
        if blocklen < NDIRECT + j && block != 0 {
          bits := Bfree(bits, |s.disk|, block, vol.owner.Keys - freed);
          idbuf, iddirty := idbuf[j := 0], true;
          assert vol.owner.Keys - freed - {block} == vol.owner.Keys - (freed + {block});
          freed := freed + {block};
        }
        if idbuf[j] != 0 {
          hasnonzero := true;
        }
      }
    }

    /** sfs_truncate: what becomes of the indirect block, given the new direct pointers in ip0. */
    method TruncIndirect(sv: nat, blocklen: nat, ip0: Inode, bits0: seq<Byte>, ghost freed0: set<nat>)
      returns (ip: Inode, disk: seq<Block>, bits: seq<Byte>, ghost freed: set<nat>)
      requires Valid() && sv < |s.vnodes| && ip0 == s.vnodes[sv].inode.(direct := ip0.direct)
      requires FreedUpTo(vol, s.vnodes[sv].ino, blocklen, freed0, NDIRECT)
      requires MapOk(bits0, |s.disk|, vol.owner.Keys - freed0)
      ensures FreedAll(vol, s.vnodes[sv].ino, blocklen, freed) && MapOk(bits, |s.disk|, vol.owner.Keys - freed)
      ensures |disk| == |s.disk|
      ensures forall b: nat {:trigger disk[b]} | b < |disk| && (b == 0 || b != s.vnodes[sv].inode.indirect) ::
                disk[b] == s.disk[b]
      ensures ip == ip0.(indirect := ip.indirect)
      ensures ip.indirect == if LosesIndirect(s.vnodes[sv].inode, s.disk, blocklen) then 0 else ip0.indirect
      ensures forall f: nat {:trigger FilePtr(ip, disk, f)} | NDIRECT <= f < MAXFILEBLOCKS ::
                FilePtr(ip, disk, f) == if Kept(blocklen, f) then FilePtr(s.vnodes[sv].inode, s.disk, f) else 0
    {
      ghost var ino := s.vnodes[sv].ino;
      var idblock := ip0.indirect;
      ip, disk, bits, freed := ip0, s.disk, bits0, freed0;
      var highblock := NDIRECT + DBPERIDB - 1;
      if blocklen < highblock && idblock != 0 {
        IndirectOnDevice(s, vol, sv);
        var idbuf, hasnonzero, iddirty;
        idbuf, hasnonzero, iddirty, bits, freed := FreeEntries(sv, blocklen, bits0, freed0);
        DataAndIndirect(vol, ino, blocklen, freed);
        LosesIff(s.vnodes[sv].inode, s.disk, blocklen, idbuf, hasnonzero);
        if !hasnonzero {
          bits := Bfree(bits, |s.disk|, idblock, vol.owner.Keys - freed);
          assert vol.owner.Keys - freed - {idblock} == vol.owner.Keys - (freed + {idblock});
          freed := freed + {idblock};
          ip := ip.(indirect := 0);
        } else if iddirty {
          PtrsAfterRewrite(ip, disk, idbuf);
          disk := disk[idblock := FromWords(idbuf)];
        }
      } else {
        FreedRest(vol, ino, blocklen, freed, NDIRECT);
        DataAndIndirect(vol, ino, blocklen, freed);
      }
    }

    /** sfs_truncate. */
    method Truncate(sv: nat, len: nat)
      requires Valid() && sv < |s.vnodes| && len < 0x8000_0000
      modifies this
      ensures Valid()
      ensures var ino := old(s).vnodes[sv].ino;
              && Truncation(old(vol), vol, ino, (len + BLOCKSIZE - 1) / BLOCKSIZE)
              && s.vnodes == SetInode(old(s).vnodes, sv, vol.files[ino])
      ensures var (ip, ip') := (old(s).vnodes[sv].inode, s.vnodes[sv].inode);
              ip' == ip.(size := len, direct := ip'.direct, indirect := ip'.indirect)
    {
      var blocklen := (len + BLOCKSIZE - 1) / BLOCKSIZE;
      var ip, bits, freed := FreeDirect(sv, blocklen);
      var ip1, disk, bits', freed' := TruncIndirect(sv, blocklen, ip, bits, freed);
      ghost var ino := s.vnodes[sv].ino;
      var ip' := ip1.(size := len);
      forall f: nat | f < MAXFILEBLOCKS
        ensures FilePtr(ip', disk, f) == if Kept(blocklen, f) then FilePtr(vol.files[ino], s.disk, f) else 0
      {
        assert FilePtr(ip', disk, f) == FilePtr(ip1, disk, f);
      }
      var mapDirty := s.mapDirty || bits' != s.bits;
      MakeTruncation(vol, ino, blocklen, ip', disk, freed');
      ghost var w := Vol(disk, vol.files[ino := ip'], vol.owner - freed');
      TruncationGood(s, vol, w, sv, blocklen, bits', mapDirty);
      s := State(disk, bits', mapDirty, SetInode(s.vnodes, sv, ip'));
      vol := w;
    }
  }
}
