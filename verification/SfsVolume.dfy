/**
 What an SFS volume holds, as values: how an inode's pointers map the blocks of
 its file, what bytes a file therefore contains, and who owns each disk block.
 The lemmas say what each elementary change made by sfs_vnode.c does to both.
 */
module SfsVolume {
  import opened SfsLayout

  // ---- Block mapping and contents --------------------------------------

  function BlockAt(d: seq<Block>, b: nat): Block {
    if b < |d| then d[b] else Zero
  }

  /** Entry j of the indirect block; a missing indirect block reads as zeros. */
  function Entry(d: seq<Block>, idblock: Word, j: nat): Word
    requires j < DBPERIDB
  {
    if idblock == 0 then 0 else Words(BlockAt(d, idblock))[j]
  }

  /** Disk block number of block f of a file, 0 for a hole. */
  function FilePtr(ip: Inode, d: seq<Block>, f: nat): Word
    requires f < MAXFILEBLOCKS
  {
    if f < NDIRECT then ip.direct[f] else Entry(d, ip.indirect, f - NDIRECT)
  }

  function FileBlock(ip: Inode, d: seq<Block>, f: nat): Block
    requires f < MAXFILEBLOCKS
  {
    if FilePtr(ip, d, f) == 0 then Zero else BlockAt(d, FilePtr(ip, d, f))
  }

  function ContentByte(ip: Inode, d: seq<Block>, k: nat): Byte
    requires k < MAXFILEBYTES
  {
    FileBlock(ip, d, k / BLOCKSIZE)[k % BLOCKSIZE]
  }

  /** The bytes of a file up to the largest mappable offset, holes read as zeros. */
  function Content(ip: Inode, d: seq<Block>): (c: seq<Byte>)
    ensures |c| == MAXFILEBYTES
  {
    seq(MAXFILEBYTES, k requires 0 <= k < MAXFILEBYTES => ContentByte(ip, d, k))
  }

  /** c with the bytes from offset o on replaced by data. */
  function Splice<T>(c: seq<T>, o: nat, data: seq<T>): (r: seq<T>)
    requires o + |data| <= |c|
    ensures |r| == |c|
  {
    c[..o] + data + c[o + |data|..]
  }

  lemma SpliceTwice<T>(c: seq<T>, o: nat, x: seq<T>, y: seq<T>)
    requires o + |x| + |y| <= |c|
    ensures Splice(Splice(c, o, x), o + |x|, y) == Splice(c, o, x + y)
  {}

  // ---- Ownership -------------------------------------------------------

  datatype Owner = Reserved | InodeBlock(ino: nat) | Data(ino: nat, f: nat) | Indirect(ino: nat)

  /**
   disk: the blocks; files: every live inode with its current (in-memory) value;
   owner: the one owner of each block in use.
   */
  datatype Vol = Vol(disk: seq<Block>, files: map<nat, Inode>, owner: map<nat, Owner>)

  /** Superblock, freemap, and freemap bits past the end of the device. */
  predicate IsReserved(nblocks: nat, b: nat) {
    b == 0 || MAPSTART <= b < MAPSTART + BitBlocks(nblocks) || nblocks <= b < BitmapSize(nblocks)
  }

  ghost predicate Points(v: Vol, o: Owner, b: nat) {
    match o
    case Reserved => IsReserved(|v.disk|, b)
    case InodeBlock(ino) => ino in v.files && b == ino
    case Data(ino, f) => ino in v.files && f < MAXFILEBLOCKS && b == FilePtr(v.files[ino], v.disk, f) && b != 0
    case Indirect(ino) => ino in v.files && b == v.files[ino].indirect && b != 0
  }

  ghost predicate OwnedPtr(v: Vol, ino: nat, f: nat)
    requires ino in v.files && f < MAXFILEBLOCKS
  {
    var p := FilePtr(v.files[ino], v.disk, f);
    p != 0 ==> p in v.owner && v.owner[p] == Data(ino, f)
  }

  ghost predicate OwnedIndirect(v: Vol, ino: nat)
    requires ino in v.files
  {
    var p := v.files[ino].indirect;
    p != 0 ==> p in v.owner && v.owner[p] == Indirect(ino)
  }

  ghost predicate OwnedInode(v: Vol, ino: nat) {
    ino in v.owner && v.owner[ino] == InodeBlock(ino)
  }

  ghost predicate OwnerPoints(v: Vol, b: nat)
    requires b in v.owner
  {
    b < BitmapSize(|v.disk|) && Points(v, v.owner[b], b)
  }

  ghost predicate Owned(v: Vol) {
    && (forall ino {:trigger OwnedInode(v, ino)} | ino in v.files :: OwnedInode(v, ino))
    && (forall ino, f: nat {:trigger OwnedPtr(v, ino, f)} | ino in v.files && f < MAXFILEBLOCKS :: OwnedPtr(v, ino, f))
    && (forall ino {:trigger OwnedIndirect(v, ino)} | ino in v.files :: OwnedIndirect(v, ino))
    && (forall b {:trigger IsReserved(|v.disk|, b)} | IsReserved(|v.disk|, b) :: b in v.owner && v.owner[b] == Reserved)
    && (forall b {:trigger OwnerPoints(v, b)} | b in v.owner :: OwnerPoints(v, b))
  }

  /** The main reading of Owned: a block in use has exactly one owner, and owners only hold blocks in use. */
  lemma ExactlyOneOwner(v: Vol, b: nat)
    requires Owned(v)
    ensures b in v.owner <==> exists o :: Points(v, o, b)
    ensures forall o, o' | Points(v, o, b) && Points(v, o', b) :: o == o'
  {
    assert b in v.owner ==> OwnerPoints(v, b);
    forall o | Points(v, o, b)
      ensures b in v.owner && v.owner[b] == o
    {
      if o.Data? {
        assert OwnedPtr(v, o.ino, o.f);
      } else if o.Indirect? {
        assert OwnedIndirect(v, o.ino);
      } else if o.InodeBlock? {
        assert OwnedInode(v, o.ino);
      }
    }
  }

  /** Blocks in use that are not reserved lie on the device, after block 0. */
  lemma OnDevice(v: Vol, b: nat)
    requires Owned(v) && b in v.owner && v.owner[b] != Reserved
    ensures 0 < b < |v.disk|
  {
    assert OwnerPoints(v, b);
    assert IsReserved(|v.disk|, 0) && !IsReserved(|v.disk|, b);
  }

  ghost function Contents(v: Vol): map<nat, seq<Byte>> {
    map ino | ino in v.files :: Content(v.files[ino], v.disk)
  }

  // ---- Frame -----------------------------------------------------------

  /** Every pointer of file ino is the same in v and w. */
  ghost predicate SamePtrs(v: Vol, w: Vol, ino: nat)
    requires ino in v.files && ino in w.files
  {
    && v.files[ino].indirect == w.files[ino].indirect
    && forall f: nat | f < MAXFILEBLOCKS :: FilePtr(v.files[ino], v.disk, f) == FilePtr(w.files[ino], w.disk, f)
  }

  ghost predicate SameBlocks(v: Vol, w: Vol, ino: nat)
    requires ino in v.files && ino in w.files
  {
    forall f: nat | f < MAXFILEBLOCKS :: FileBlock(v.files[ino], v.disk, f) == FileBlock(w.files[ino], w.disk, f)
  }

  lemma SameContent(v: Vol, w: Vol, ino: nat)
    requires ino in v.files && ino in w.files && SameBlocks(v, w, ino)
    ensures Content(v.files[ino], v.disk) == Content(w.files[ino], w.disk)
  {
    forall k: nat | k < MAXFILEBYTES
      ensures ContentByte(v.files[ino], v.disk, k) == ContentByte(w.files[ino], w.disk, k)
    {
      assert k / BLOCKSIZE < MAXFILEBLOCKS;
    }
  }

  /** Blocks outside those that file ino uses are the same on both disks. */
  ghost predicate DiskAgrees(v: Vol, w: Vol, ino: nat) {
    && |v.disk| == |w.disk|
    && forall b: nat |
         b < |v.disk| && b in v.owner && (v.owner[b] == Indirect(ino) || (v.owner[b].Data? && v.owner[b].ino == ino)) ::
         v.disk[b] == w.disk[b]
  }

  /** An inode whose record and blocks did not change still maps the same data. */
  lemma FileKept(v: Vol, w: Vol, ino: nat)
    requires Owned(v) && ino in v.files && ino in w.files && w.files[ino] == v.files[ino]
    requires DiskAgrees(v, w, ino)
    ensures SamePtrs(v, w, ino) && SameBlocks(v, w, ino)
    ensures Content(v.files[ino], v.disk) == Content(w.files[ino], w.disk)
  {
    assert OwnedIndirect(v, ino);
    forall f: nat | f < MAXFILEBLOCKS
      ensures FilePtr(v.files[ino], v.disk, f) == FilePtr(w.files[ino], w.disk, f)
      ensures FileBlock(v.files[ino], v.disk, f) == FileBlock(w.files[ino], w.disk, f)
    {
      assert OwnedPtr(v, ino, f);
    }
    SameContent(v, w, ino);
  }

  /** Ownership depends only on the pointers. */
  lemma OwnedFrame(v: Vol, w: Vol)
    requires Owned(v) && |w.disk| == |v.disk| && w.files.Keys == v.files.Keys && w.owner == v.owner
    requires forall ino | ino in v.files :: SamePtrs(v, w, ino)
    ensures Owned(w)
  {
    forall ino, f: nat | ino in w.files && f < MAXFILEBLOCKS
      ensures OwnedPtr(w, ino, f)
    {
      assert SamePtrs(v, w, ino) && OwnedPtr(v, ino, f);
    }
    forall ino | ino in w.files
      ensures OwnedIndirect(w, ino) && OwnedInode(w, ino)
    {
      assert SamePtrs(v, w, ino) && OwnedIndirect(v, ino) && OwnedInode(v, ino);
    }
    forall b | b in w.owner
      ensures OwnerPoints(w, b)
    {
      assert OwnerPoints(v, b);
      if v.owner[b].Data? || v.owner[b].Indirect? {
        assert SamePtrs(v, w, v.owner[b].ino);
      }
    }
  }

  // ---- Elementary changes ----------------------------------------------

  /** Writing a block that holds no file data and no indirect block: free, inode or reserved. */
  lemma WriteElsewhere(v: Vol, b: nat, blk: Block)
    requires Owned(v) && b < |v.disk|
    requires b in v.owner ==> v.owner[b].InodeBlock? || v.owner[b].Reserved?
    ensures var w := v.(disk := v.disk[b := blk]); Owned(w) && Contents(w) == Contents(v)
    ensures var w := v.(disk := v.disk[b := blk]); forall ino | ino in v.files :: SamePtrs(v, w, ino)
  {
    var w := v.(disk := v.disk[b := blk]);
    forall ino | ino in v.files
      ensures SamePtrs(v, w, ino) && Content(v.files[ino], v.disk) == Content(w.files[ino], w.disk)
    {
      FileKept(v, w, ino);
    }
    OwnedFrame(v, w);
  }

  /** Writing a data block changes that block of that file and nothing else. */
  lemma WriteData(v: Vol, ino: nat, f: nat, blk: Block)
    requires Owned(v) && ino in v.files && f < MAXFILEBLOCKS
    requires FilePtr(v.files[ino], v.disk, f) != 0
    ensures FilePtr(v.files[ino], v.disk, f) < |v.disk|
    ensures var w := v.(disk := v.disk[FilePtr(v.files[ino], v.disk, f) := blk]);
            && Owned(w)
            && (forall i | i in v.files :: SamePtrs(v, w, i))
            && (forall i | i in v.files && i != ino :: Content(w.files[i], w.disk) == Content(v.files[i], v.disk))
            && (forall g: nat | g < MAXFILEBLOCKS ::
                  FileBlock(w.files[ino], w.disk, g) == if g == f then blk else FileBlock(v.files[ino], v.disk, g))
  {
    var b := FilePtr(v.files[ino], v.disk, f);
    assert OwnedPtr(v, ino, f);
    OnDevice(v, b);
    var w := v.(disk := v.disk[b := blk]);
    forall i | i in v.files && i != ino
      ensures SamePtrs(v, w, i) && Content(w.files[i], w.disk) == Content(v.files[i], v.disk)
    {
      FileKept(v, w, i);
    }
    assert OwnedIndirect(v, ino);
    forall g: nat | g < MAXFILEBLOCKS
      ensures FilePtr(w.files[ino], w.disk, g) == FilePtr(v.files[ino], v.disk, g)
      ensures FileBlock(w.files[ino], w.disk, g) == if g == f then blk else FileBlock(v.files[ino], v.disk, g)
    {
      assert OwnedPtr(v, ino, g);
    }
    assert SamePtrs(v, w, ino);
    OwnedFrame(v, w);
  }

  /** The same change seen as bytes: a splice into one block is a splice into the file. */
  lemma SpliceBlock(ip: Inode, d: seq<Block>, ip': Inode, d': seq<Block>, f: nat, skip: nat, data: seq<Byte>)
    requires f < MAXFILEBLOCKS && skip + |data| <= BLOCKSIZE
    requires forall g: nat | g < MAXFILEBLOCKS ::
               FileBlock(ip', d', g) == if g == f then Splice(FileBlock(ip, d, f), skip, data) else FileBlock(ip, d, g)
    ensures Content(ip', d') == Splice(Content(ip, d), f * BLOCKSIZE + skip, data)
  {
    var o := f * BLOCKSIZE + skip;
    forall k: nat | k < MAXFILEBYTES
      ensures ContentByte(ip', d', k) == if o <= k < o + |data| then data[k - o] else ContentByte(ip, d, k)
    {
      var g, r := k / BLOCKSIZE, k % BLOCKSIZE;
      assert g < MAXFILEBLOCKS && k == g * BLOCKSIZE + r;
      if g == f {
        assert FileBlock(ip', d', f)[r] == if skip <= r < skip + |data| then data[r - skip] else FileBlock(ip, d, f)[r];
      }
    }
  }

  predicate About(o: Owner, ino: nat) {
    (o.Data? || o.Indirect?) && o.ino == ino
  }

  /** Only the pointers of one file, and the blocks they hold, differ between v and w. */
  ghost predicate OnlyFile(v: Vol, w: Vol, ino: nat) {
    && |w.disk| == |v.disk|
    && ino in v.files && ino in w.files && w.files == v.files[ino := w.files[ino]]
    && (forall b | b in v.owner && !About(v.owner[b], ino) ::
          b in w.owner && w.owner[b] == v.owner[b] && BlockAt(w.disk, b) == BlockAt(v.disk, b))
    && (forall b | b in w.owner && !About(w.owner[b], ino) :: b in v.owner && w.owner[b] == v.owner[b])
    && (forall b | b in w.owner && About(w.owner[b], ino) :: OwnerPoints(w, b))
    && (forall f: nat | f < MAXFILEBLOCKS :: OwnedPtr(w, ino, f))
    && OwnedIndirect(w, ino)
  }

  lemma OneFileChanged(v: Vol, w: Vol, ino: nat)
    requires Owned(v) && OnlyFile(v, w, ino)
    ensures Owned(w)
    ensures forall i | i in v.files && i != ino ::
              SamePtrs(v, w, i) && Content(w.files[i], w.disk) == Content(v.files[i], v.disk)
  {
    forall i | i in v.files && i != ino
      ensures SamePtrs(v, w, i) && Content(w.files[i], w.disk) == Content(v.files[i], v.disk)
    {
      forall b: nat | b < |v.disk| && b in v.owner && About(v.owner[b], i)
        ensures v.disk[b] == w.disk[b]
      {
        assert BlockAt(w.disk, b) == BlockAt(v.disk, b);
      }
      FileKept(v, w, i);
    }
    forall i, f: nat | i in w.files && f < MAXFILEBLOCKS
      ensures OwnedPtr(w, i, f)
    {
      if i != ino {
        assert SamePtrs(v, w, i) && OwnedPtr(v, i, f);
      }
    }
    forall i | i in w.files
      ensures OwnedIndirect(w, i) && OwnedInode(w, i)
    {
      assert OwnedInode(v, i);
      if i != ino {
        assert SamePtrs(v, w, i) && OwnedIndirect(v, i);
      }
    }
    forall b | b in w.owner
      ensures OwnerPoints(w, b)
    {
      if !About(w.owner[b], ino) {
        assert OwnerPoints(v, b);
        if v.owner[b].Data? || v.owner[b].Indirect? {
          assert SamePtrs(v, w, v.owner[b].ino);
        }
      }
    }
  }

  /** When the changed file also reads the same, all contents do. */
  lemma OneFileSameContents(v: Vol, w: Vol, ino: nat)
    requires Owned(v) && OnlyFile(v, w, ino) && SameBlocks(v, w, ino)
    ensures Owned(w) && Contents(w) == Contents(v)
  {
    OneFileChanged(v, w, ino);
    SameContent(v, w, ino);
  }

  /** A free, cleared block may be hooked into an empty direct slot unseen. */
  lemma SetDirect(v: Vol, ino: nat, f: nat, b: Word)
    requires Owned(v) && ino in v.files && f < NDIRECT && v.files[ino].direct[f] == 0
    requires b !in v.owner && 0 < b < |v.disk| && v.disk[b] == Zero
    ensures var ip := v.files[ino];
            var w := Vol(v.disk, v.files[ino := ip.(direct := ip.direct[f := b])], v.owner[b := Data(ino, f)]);
            Owned(w) && Contents(w) == Contents(v)
  {
    var ip := v.files[ino];
    var w := Vol(v.disk, v.files[ino := ip.(direct := ip.direct[f := b])], v.owner[b := Data(ino, f)]);
    assert OwnedIndirect(v, ino);
    forall g: nat | g < MAXFILEBLOCKS
      ensures FilePtr(w.files[ino], w.disk, g) == if g == f then b else FilePtr(v.files[ino], v.disk, g)
      ensures OwnedPtr(w, ino, g)
    {
      assert OwnedPtr(v, ino, g);
    }
    forall x | x in w.owner && About(w.owner[x], ino)
      ensures OwnerPoints(w, x)
    {
      assert x != b ==> OwnerPoints(v, x);
    }
    OneFileSameContents(v, w, ino);
  }

  /** The same for a new indirect block: all its entries are holes. */
  lemma SetIndirect(v: Vol, ino: nat, b: Word)
    requires Owned(v) && ino in v.files && v.files[ino].indirect == 0
    requires b !in v.owner && 0 < b < |v.disk| && v.disk[b] == Zero
    ensures var w := Vol(v.disk, v.files[ino := v.files[ino].(indirect := b)], v.owner[b := Indirect(ino)]);
            Owned(w) && Contents(w) == Contents(v)
  {
    var w := Vol(v.disk, v.files[ino := v.files[ino].(indirect := b)], v.owner[b := Indirect(ino)]);
    ZeroWords();
    forall g: nat | g < MAXFILEBLOCKS
      ensures FilePtr(w.files[ino], w.disk, g) == FilePtr(v.files[ino], v.disk, g)
      ensures OwnedPtr(w, ino, g)
    {
      assert OwnedPtr(v, ino, g);
    }
    forall x | x in w.owner && About(w.owner[x], ino)
      ensures OwnerPoints(w, x)
    {
      assert x != b ==> OwnerPoints(v, x);
    }
    OneFileSameContents(v, w, ino);
  }

  /** Pointers of a file whose indirect block is rewritten to hold the words ws. */
  lemma PtrsAfterRewrite(ip: Inode, d: seq<Block>, ws: seq<Word>)
    requires |ws| == DBPERIDB && 0 < ip.indirect < |d|
    ensures var d' := d[ip.indirect := FromWords(ws)];
            forall g: nat | g < MAXFILEBLOCKS ::
              FilePtr(ip, d', g) == if g < NDIRECT then FilePtr(ip, d, g) else ws[g - NDIRECT]
  {
    WordsFromWords(ws);
  }

  /** The same for an empty entry of the indirect block, which is rewritten on disk. */
  lemma SetEntry(v: Vol, ino: nat, j: nat, b: Word)
    requires Owned(v) && ino in v.files && j < DBPERIDB && 0 < v.files[ino].indirect < |v.disk|
    requires Entry(v.disk, v.files[ino].indirect, j) == 0
    requires b !in v.owner && 0 < b < |v.disk| && v.disk[b] == Zero
    ensures var idb := v.files[ino].indirect;
            var w := Vol(v.disk[idb := FromWords(Words(v.disk[idb])[j := b])], v.files,
                         v.owner[b := Data(ino, NDIRECT + j)]);
            Owned(w) && Contents(w) == Contents(v) && FilePtr(w.files[ino], w.disk, NDIRECT + j) == b
  {
    var idb := v.files[ino].indirect;
    assert OwnedIndirect(v, ino);
    var ws := Words(v.disk[idb])[j := b];
    PtrsAfterRewrite(v.files[ino], v.disk, ws);
    var blk := FromWords(ws);
    var w := Vol(v.disk[idb := blk], v.files, v.owner[b := Data(ino, NDIRECT + j)]);
    forall g: nat | g < MAXFILEBLOCKS
      ensures FilePtr(w.files[ino], w.disk, g) == if g == NDIRECT + j then b else FilePtr(v.files[ino], v.disk, g)
    {
    }
    HookedEntry(v, w, ino, NDIRECT + j, b);
  }

  lemma HookedEntry(v: Vol, w: Vol, ino: nat, f: nat, b: Word)
    requires Owned(v) && ino in v.files && f < MAXFILEBLOCKS && 0 < v.files[ino].indirect < |v.disk|
    requires b !in v.owner && 0 < b < |v.disk| && v.disk[b] == Zero && FilePtr(v.files[ino], v.disk, f) == 0
    requires w.files == v.files && w.owner == v.owner[b := Data(ino, f)]
    requires |w.disk| == |v.disk|
    requires forall x: nat | x < |v.disk| && x != v.files[ino].indirect :: w.disk[x] == v.disk[x]
    requires forall g: nat | g < MAXFILEBLOCKS ::
               FilePtr(w.files[ino], w.disk, g) == if g == f then b else FilePtr(v.files[ino], v.disk, g)
    ensures Owned(w) && Contents(w) == Contents(v)
  {
    assert OwnedIndirect(v, ino);
    forall g: nat | g < MAXFILEBLOCKS
      ensures OwnedPtr(w, ino, g)
      ensures FileBlock(w.files[ino], w.disk, g) == FileBlock(v.files[ino], v.disk, g)
    {
      assert OwnedPtr(v, ino, g);
    }
    forall x | x in w.owner && About(w.owner[x], ino)
      ensures OwnerPoints(w, x)
    {
      assert x != b ==> OwnerPoints(v, x);
    }
    assert w.files == v.files[ino := w.files[ino]];
    OneFileSameContents(v, w, ino);
  }

  // ---- Giving blocks back ----------------------------------------------

  /** Owner o of file ino in v no longer points anywhere in w. */
  ghost predicate Dropped(w: Vol, ino: nat, o: Owner)
    requires ino in w.files
  {
    match o
    case Data(i, f) => i == ino && f < MAXFILEBLOCKS && FilePtr(w.files[ino], w.disk, f) == 0
    case Indirect(i) => i == ino && w.files[ino].indirect == 0
    case _ => false
  }

  /** w is v with some pointers of file ino set to zero and exactly their blocks given back. */
  ghost predicate Shrunk(v: Vol, w: Vol, ino: nat) {
    && |w.disk| == |v.disk|
    && ino in v.files && ino in w.files && w.files == v.files[ino := w.files[ino]]
    && (forall b: nat | b < |v.disk| && (b == 0 || b != v.files[ino].indirect) :: w.disk[b] == v.disk[b])
    && (w.files[ino].indirect == v.files[ino].indirect || w.files[ino].indirect == 0)
    && (forall f: nat | f < MAXFILEBLOCKS ::
          FilePtr(w.files[ino], w.disk, f) == FilePtr(v.files[ino], v.disk, f) || FilePtr(w.files[ino], w.disk, f) == 0)
    && (forall b | b in v.owner :: b in w.owner <==> !Dropped(w, ino, v.owner[b]))
    && (forall b | b in w.owner :: b in v.owner && w.owner[b] == v.owner[b])
  }

  lemma ShrinkFile(v: Vol, w: Vol, ino: nat)
    requires Owned(v) && Shrunk(v, w, ino)
    ensures Owned(w)
    ensures forall i | i in v.files && i != ino :: Content(w.files[i], w.disk) == Content(v.files[i], v.disk)
    ensures forall f: nat | f < MAXFILEBLOCKS ::
              FileBlock(w.files[ino], w.disk, f)
              == if FilePtr(w.files[ino], w.disk, f) == 0 then Zero else FileBlock(v.files[ino], v.disk, f)
  {
    assert OwnedIndirect(v, ino);
    forall f: nat | f < MAXFILEBLOCKS
      ensures OwnedPtr(w, ino, f)
      ensures FileBlock(w.files[ino], w.disk, f)
              == if FilePtr(w.files[ino], w.disk, f) == 0 then Zero else FileBlock(v.files[ino], v.disk, f)
    {
      assert OwnedPtr(v, ino, f);
    }
    forall b | b in w.owner && About(w.owner[b], ino)
      ensures OwnerPoints(w, b)
    {
      assert OwnerPoints(v, b) && !Dropped(w, ino, v.owner[b]);
    }
    OneFileChanged(v, w, ino);
  }

  /** A file with no pointers left can be forgotten together with its inode block. */
  lemma ForgetFile(v: Vol, ino: nat)
    requires Owned(v) && ino in v.files && v.files[ino].indirect == 0
    requires forall f: nat | f < MAXFILEBLOCKS :: FilePtr(v.files[ino], v.disk, f) == 0
    ensures var w := Vol(v.disk, v.files - {ino}, v.owner - {ino}); Owned(w) && Contents(w) == Contents(v) - {ino}
  {
    var w := Vol(v.disk, v.files - {ino}, v.owner - {ino});
    assert OwnedInode(v, ino);
    forall i, f: nat | i in w.files && f < MAXFILEBLOCKS
      ensures OwnedPtr(w, i, f)
    {
      assert OwnedPtr(v, i, f);
    }
    forall i | i in w.files
      ensures OwnedIndirect(w, i) && OwnedInode(w, i)
    {
      assert OwnedIndirect(v, i) && OwnedInode(v, i);
    }
    forall b | b in w.owner
      ensures OwnerPoints(w, b)
    {
      assert OwnerPoints(v, b);
    }
  }

  /** A free block can become the inode of a new, empty file. */
  lemma AddFile(v: Vol, ino: nat, ip: Inode)
    requires Owned(v) && ino !in v.owner && ino < |v.disk|
    requires ip.indirect == 0 && forall f: nat | f < NDIRECT :: ip.direct[f] == 0
    ensures var w := Vol(v.disk, v.files[ino := ip], v.owner[ino := InodeBlock(ino)]);
            Owned(w) && Contents(w) == Contents(v)[ino := Content(ip, v.disk)] && AllZeros(Content(ip, v.disk))
  {
    var w := Vol(v.disk, v.files[ino := ip], v.owner[ino := InodeBlock(ino)]);
    assert ino in v.files ==> OwnedInode(v, ino);
    forall i, f: nat | i in w.files && f < MAXFILEBLOCKS
      ensures OwnedPtr(w, i, f)
    {
      if i != ino {
        assert OwnedPtr(v, i, f);
      }
    }
    forall i | i in w.files
      ensures OwnedIndirect(w, i) && OwnedInode(w, i)
    {
      if i != ino {
        assert OwnedIndirect(v, i) && OwnedInode(v, i);
      }
    }
    forall b | b in w.owner
      ensures OwnerPoints(w, b)
    {
      assert b != ino ==> OwnerPoints(v, b);
    }
    EmptyContent(ip, v.disk);
  }

  predicate AllZeros(c: seq<Byte>) {
    forall k | 0 <= k < |c| :: c[k] == 0
  }

  lemma EmptyContent(ip: Inode, d: seq<Block>)
    requires ip.indirect == 0 && forall f: nat | f < NDIRECT :: ip.direct[f] == 0
    ensures AllZeros(Content(ip, d))
  {
    forall k: nat | k < MAXFILEBYTES
      ensures Content(ip, d)[k] == 0
    {
      var f := k / BLOCKSIZE;
      assert f < MAXFILEBLOCKS && FilePtr(ip, d, f) == 0;
    }
  }

  /** Fields other than pointers do not matter to ownership or contents. */
  lemma RelabelFile(v: Vol, ino: nat, ip: Inode)
    requires Owned(v) && ino in v.files
    requires ip.direct == v.files[ino].direct && ip.indirect == v.files[ino].indirect
    ensures var w := v.(files := v.files[ino := ip]); Owned(w) && Contents(w) == Contents(v)
  {
    var w := v.(files := v.files[ino := ip]);
    forall i | i in v.files
      ensures SamePtrs(v, w, i) && Content(w.files[i], w.disk) == Content(v.files[i], v.disk)
    {
      assert SamePtrs(v, w, i);
      SameContent(v, w, i);
    }
    OwnedFrame(v, w);
  }
}
