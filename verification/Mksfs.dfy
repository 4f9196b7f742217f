/**
 Formatting a volume (sbin/mksfs/mksfs.c): the superblock, the root inode and
 the freemap, and the proof that the result is a volume that can be mounted.
 */
module Mksfs {
  import opened SfsLayout
  import opened SfsVolume
  import opened SfsVnode
  import opened SfsDir
  import opened SfsOps
  import opened SfsFs
  import opened Bitmap

  const VOLNAME_SIZE := 32
  const MAXBITBLOCKS := 32

  function SuperBlock(volname: seq<Byte>, nblocks: Word): Block
    requires |volname| < VOLNAME_SIZE
  {
    WordBytes(MAGIC) + (WordBytes(nblocks) + (volname + Zeros(504 - |volname|)))
  }

  lemma SuperName(volname: seq<Byte>, nblocks: Word)
    requires |volname| < VOLNAME_SIZE && IsName(volname)
    ensures CString(SuperBlock(volname, nblocks)[8..40]) == volname
  {
    var b := SuperBlock(volname, nblocks);
    assert b[8..] == volname + Zeros(504 - |volname|);
    assert b[8..40] == volname + Zeros(32 - |volname|);
    CStringUnique(b[8..40], volname);
  }

  lemma SuperWords(b: Block, nblocks: Word, rest: seq<Byte>)
    requires b == WordBytes(MAGIC) + (WordBytes(nblocks) + rest)
    ensures Words(b)[0] == MAGIC && Words(b)[1] == nblocks
  {
    FirstWordOfBytes(MAGIC, WordBytes(nblocks) + rest);
    assert b[4..] == WordBytes(nblocks) + rest;
    FirstWordOfBytes(nblocks, rest);
    assert WordsOf(b)[1] == WordsOf(b[4..])[0];
  }

  /** The root directory: empty, with the one link it will always have. */
  function RootDir(): Inode {
    ZeroInode.(kind := TYPE_DIR, links := 1)
  }

  // ---- The freemap -----------------------------------------------------

  /** doallocbit: the assertion in it fails on a bit that is set already. */
  method DoAllocBit(bits: array<Byte>, bit: nat, ghost n: nat) returns (ok: bool)
    requires bit < n <= 8 * bits.Length
    modifies bits
    ensures ok <==> bit !in old(BitSet(bits[..], n))
    ensures BitSet(bits[..], n) == if ok then old(BitSet(bits[..], n)) + {bit} else old(BitSet(bits[..], n))
  {
    var byte := bit / 8;
    ok := !Bit(bits[byte], bit % 8);
    assert ok <==> !BitAt(bits[..], bit);
    if ok {
      MarkBit(bits[..], n, bit);
      ghost var was := bits[..];
      bits[byte] := SetBit(bits[byte], bit % 8);
      assert bits[..] == was[bit / 8 := SetBit(was[bit / 8], bit % 8)];
    }
  }

  /** The blocks a new volume uses: the reserved ones and the root inode. */
  function InitialBlocks(nblocks: nat): set<nat> {
    set b: nat | b < BitmapSize(nblocks) && (b == ROOT || IsReserved(nblocks, b))
  }

  /** Block b is reserved or the root's, and among the first hi that writebitmap considers. */
  predicate MarkedBelow(nblocks: nat, hi: nat, b: nat) {
    b < hi && (b < MAPSTART + BitBlocks(nblocks) || nblocks <= b)
  }

  ghost function MarkedSet(nblocks: nat, hi: nat): set<nat> {
    set b: nat | b < BitmapSize(nblocks) && MarkedBelow(nblocks, hi, b)
  }

  lemma MarkedNext(nblocks: nat, hi: nat)
    requires hi < BitmapSize(nblocks) && (hi < MAPSTART + BitBlocks(nblocks) || nblocks <= hi)
    ensures hi !in MarkedSet(nblocks, hi) && MarkedSet(nblocks, hi + 1) == MarkedSet(nblocks, hi) + {hi}
  {}

  lemma MarkedStart(nblocks: nat)
    ensures MarkedSet(nblocks, 0) == {}
  {}

  lemma MarkedEnds(nblocks: nat)
    requires MAPSTART + BitBlocks(nblocks) <= nblocks <= BitmapSize(nblocks)
    ensures MarkedSet(nblocks, MAPSTART + BitBlocks(nblocks)) == MarkedSet(nblocks, nblocks)
    ensures MarkedSet(nblocks, BitmapSize(nblocks)) == InitialBlocks(nblocks)
  {
    forall b: nat | b < BitmapSize(nblocks)
      ensures b in MarkedSet(nblocks, BitmapSize(nblocks)) <==> b in InitialBlocks(nblocks)
    {}
  }

  lemma Bitmaps(nblocks: nat)
    ensures 8 * (BLOCKSIZE * BitBlocks(nblocks)) == BitmapSize(nblocks) && nblocks <= BitmapSize(nblocks)
  {}

  /** Three blocks are what the superblock, the root and the freemap need at least. */
  lemma SmallestVolume(n: nat)
    ensures MAPSTART + BitBlocks(n) <= n <==> 3 <= n
  {}

  /**
   writebitmap's last loop, over the bits past the device: it meets a marked one
   exactly when the freemap does not fit.
   */
  method MarkPadding(bits: array<Byte>, nblocks: nat) returns (ok: bool)
    requires MAPSTART <= nblocks && bits.Length == BLOCKSIZE * BitBlocks(nblocks)
    requires BitSet(bits[..], BitmapSize(nblocks)) == MarkedSet(nblocks, MAPSTART + BitBlocks(nblocks))
    modifies bits
    ensures ok <==> 3 <= nblocks
    ensures ok ==> BitSet(bits[..], BitmapSize(nblocks)) == InitialBlocks(nblocks)
  {
    var nbits := BitmapSize(nblocks);
    Bitmaps(nblocks);
    SmallestVolume(nblocks);
    if 3 <= nblocks {
      MarkedEnds(nblocks);
    }
    ok := true;
    for i := nblocks to nbits
      invariant ok && BitSet(bits[..], nbits) ==
                  MarkedSet(nblocks, if 3 <= nblocks then i else MAPSTART + BitBlocks(nblocks))
      invariant 3 <= nblocks || i == nblocks
    {
      if 3 <= nblocks {
        MarkedNext(nblocks, i);
      }
      ok := DoAllocBit(bits, i, nbits);
      if !ok {
        return;
      }
    }
  }

  /**
   The bits that writebitmap marks; it marks one twice, and stops, exactly on a
   device too small for its own metadata.
   */
  method MarkInitial(nblocks: nat) returns (ok: bool, bits: array<Byte>)
    requires MAPSTART <= nblocks
    ensures fresh(bits) && bits.Length == BLOCKSIZE * BitBlocks(nblocks)
    ensures ok <==> 3 <= nblocks
    ensures ok ==> BitSet(bits[..], BitmapSize(nblocks)) == InitialBlocks(nblocks)
  {
    var nbits, mapsize := BitmapSize(nblocks), BitBlocks(nblocks);
    Bitmaps(nblocks);
    SmallestVolume(nblocks);
    bits := new Byte[BLOCKSIZE * mapsize](i => 0);
    forall k: nat | k < nbits
      ensures !BitAt(bits[..], k)
    {
      NoBits(k % 8);
    }
    assert BitSet(bits[..], nbits) == {};
    MarkedStart(nblocks);
    MarkedNext(nblocks, 0);
    ok := DoAllocBit(bits, 0, nbits);
    MarkedNext(nblocks, ROOT);
    ok := DoAllocBit(bits, ROOT, nbits);
    for i := 0 to mapsize
      invariant BitSet(bits[..], nbits) == MarkedSet(nblocks, MAPSTART + i)
    {
      MarkedNext(nblocks, MAPSTART + i);
      ok := DoAllocBit(bits, MAPSTART + i, nbits);
    }
    ok := MarkPadding(bits, nblocks);
  }

  // ---- The volume ------------------------------------------------------

  ghost function InitialOwner(nblocks: nat): (owner: map<nat, Owner>)
    ensures owner.Keys == InitialBlocks(nblocks)
  {
    map b: nat | b in InitialBlocks(nblocks) :: if b == ROOT then InodeBlock(ROOT) else Reserved
  }

  ghost function InitialVol(d: seq<Block>): Vol {
    Vol(d, map[ROOT := RootDir()], InitialOwner(|d|))
  }

  lemma InitialOwned(d: seq<Block>)
    requires MAPSTART + BitBlocks(|d|) <= |d|
    ensures Owned(InitialVol(d))
  {
    var v := InitialVol(d);
    Bitmaps(|d|);
    forall ino, f: nat | ino in v.files && f < MAXFILEBLOCKS
      ensures OwnedPtr(v, ino, f)
    {
      assert FilePtr(v.files[ino], d, f) == 0;
    }
    forall b | b in v.owner
      ensures OwnerPoints(v, b)
    {
      assert b in InitialBlocks(|d|);
    }
  }

  lemma InitialNames(d: seq<Block>)
    ensures NameSpace(InitialVol(d), {}) && NamesOf(InitialVol(d)) == map[]
  {
    assert DirSlots(InitialVol(d)) == [];
  }

  lemma InitialMap(d: seq<Block>, bits: seq<Byte>)
    requires MapBacked(d, |d|, bits) && BitSet(bits, BitmapSize(|d|)) == InitialBlocks(|d|)
    ensures MapOk(MapBytes(d, BitBlocks(|d|)), |d|, InitialBlocks(|d|))
  {
    MapBytesUnique(d, bits, BitBlocks(|d|));
    MapSet(bits, |d|, InitialBlocks(|d|));
  }

  lemma InitialBacked(d: seq<Block>)
    requires BlockAt(d, ROOT) == EncodeInode(RootDir())
    ensures Backed(InitialVol(d), {})
  {
    DecodeEncodeInode(RootDir());
  }

  /** Superblock, root inode and freemap in place: a volume holding one empty directory. */
  lemma InitialImage(d: seq<Block>, bits: seq<Byte>)
    requires MAPSTART + BitBlocks(|d|) <= |d| && SuperOk(d, |d|) && BlockAt(d, ROOT) == EncodeInode(RootDir())
    requires MapBacked(d, |d|, bits) && BitSet(bits, BitmapSize(|d|)) == InitialBlocks(|d|)
    ensures Image(InitialVol(d))
  {
    InitialOwned(d);
    InitialBacked(d);
    InitialMap(d, bits);
  }

  /** The freemap goes to its own blocks and nowhere else. */
  method WriteBitmap(disk: seq<Block>, bits: seq<Byte>) returns (d: seq<Block>)
    requires MAPSTART + BitBlocks(|disk|) <= |disk| && |bits| == BLOCKSIZE * BitBlocks(|disk|)
    ensures |d| == |disk| && MapBacked(d, |d|, bits)
    ensures forall b: nat | b < |d| && (b < MAPSTART || MAPSTART + BitBlocks(|d|) <= b) :: d[b] == disk[b]
  {
    d := disk;
    for j := 0 to BitBlocks(|disk|)
      invariant |d| == |disk|
      invariant forall k: nat | k < j :: MapBlock(d, k) == MapPiece(bits, k)
      invariant forall b: nat | b < |d| && (b < MAPSTART || MAPSTART + j <= b) :: d[b] == disk[b]
    {
      d := d[MAPSTART + j := MapPiece(bits, j)];
    }
    assert forall k: nat | k < BitBlocks(|disk|) :: MapBlock(d, k) == MapPiece(bits, k);
  }

  /**
   The program: it ends at a name too long, a device too small or a freemap too
   large, each at its own point. On a device of so many blocks that the size of
   the freemap wraps around to nothing, it writes none and says that all is well.
   */
  method Format(disk: seq<Block>, volname: seq<Byte>) returns (ok: bool, d: seq<Block>)
    requires |disk| < 0x1_0000_0000 && IsName(volname)
    ensures ok <==> |volname| < VOLNAME_SIZE && 3 <= |disk| && MapSize(|disk|) <= MAXBITBLOCKS
    ensures |d| == |disk| && (|volname| >= VOLNAME_SIZE ==> d == disk)
    ensures ok ==> (Image(InitialVol(d)) <==> |disk| <= MAXBITBLOCKS * BLOCKBITS)
    ensures ok && Image(InitialVol(d)) ==> NameSpace(InitialVol(d), {}) && NamesOf(InitialVol(d)) == map[]
    ensures ok ==> CString(d[0][8..40]) == volname
    ensures forall b: nat | MAPSTART + BitBlocks(|disk|) <= b < |disk| :: d[b] == disk[b]
  {
    var (n, mapsize) := (|disk|, MapSize(|disk|));
    SmallestVolume(n);
    MapSizes(n);
    if |volname| >= VOLNAME_SIZE || n == 0 {
      return false, disk;
    }
    d := disk[0 := SuperBlock(volname, n)];
    SuperWords(d[0], n, volname + Zeros(504 - |volname|));
    SuperName(volname, n);
    if n <= ROOT {
      return false, d;
    }
    d := d[ROOT := EncodeInode(RootDir())];
    if mapsize > MAXBITBLOCKS {
      return false, d;
    }
    if mapsize == 0 {
      return true, d;
    }
    var buf;
    ok, buf := MarkInitial(n);
    if ok {
      var bits := buf[..];
      d := WriteBitmap(d, bits);
      InitialImage(d, bits);
      InitialNames(d);
    }
  }

  /** The freemap has 1 to 32 blocks exactly for 1 to 131072 blocks in all, and wraps around to none only far above. */
  lemma MapSizes(n: Word)
    ensures 0 < MapSize(n) <= MAXBITBLOCKS <==> 0 < n <= MAXBITBLOCKS * BLOCKBITS
    ensures n <= MAXBITBLOCKS * BLOCKBITS ==> MapSize(n) == BitBlocks(n)
    ensures MapSize(n) == 0 ==> n == 0 || n > MAXBLOCKS
  {}
}
