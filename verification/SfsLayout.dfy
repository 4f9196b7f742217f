/**
 On-disk layout of SFS (kern/include/kern/sfs.h): constants, the big-endian
 32-bit words of a block, and the inode and directory-entry records laid over
 the raw bytes of a block.
 */
module SfsLayout {
  const BLOCKSIZE := 512
  const NDIRECT := 15
  const DBPERIDB := 128
  const MAXFILEBLOCKS := NDIRECT + DBPERIDB
  const MAXFILEBYTES := 73216
  const NAMELEN := 60
  const DIRENTSIZE := 64
  const MAXSLOTS := 1144
  const ROOT := 1
  const MAPSTART := 2
  const BLOCKBITS := 4096
  const MAXBLOCKS := 0x40_0000
  const MAGIC := 0xabadf001
  const TYPE_INVAL := 0
  const TYPE_FILE := 1
  const TYPE_DIR := 2

  type Word = w: int | 0 <= w < 0x1_0000_0000
  type Half = h: int | 0 <= h < 0x1_0000
  type Byte = b: int | 0 <= b < 0x100

  function Zeros(n: nat): (s: seq<Byte>)
    ensures |s| == n
  {
    seq(n, i => 0)
  }

  type Block = b: seq<Byte> | |b| == 512 witness Zeros(512)

  /** What sfs_clearblock writes. */
  type ClearedBlock = b: Block | forall i | 0 <= i < 512 :: b[i] == 0 witness Zeros(512)
  const Zero: ClearedBlock := Zeros(512)

  datatype Errno = ENOSPC | EINVAL | ENOENT | EEXIST | ENAMETOOLONG | EBUSY | ENXIO | ENOTDIR | EISDIR
  datatype Result<T> = Ok(value: T) | Err(error: Errno)

  /** SFS_BITBLOCKS: blocks needed for one bit per block. */
  function BitBlocks(nblocks: nat): nat {
    (nblocks + BLOCKBITS - 1) / BLOCKBITS
  }

  /** SFS_BITMAPSIZE: the same number, in bits. */
  function BitmapSize(nblocks: nat): nat {
    BitBlocks(nblocks) * BLOCKBITS
  }

  // ---- Words -----------------------------------------------------------

  /** The big-endian word in the first four bytes. */
  function FirstWord(b: seq<Byte>): Word
    requires |b| >= 4
  {
    b[0] as int * 0x100_0000 + b[1] as int * 0x1_0000 + b[2] as int * 0x100 + b[3]
  }

  /** Byte k (most significant first) of a word. */
  function WordByte(w: Word, k: nat): Byte
    requires k < 4
  {
    if k == 0 then w / 0x100_0000
    else if k == 1 then w / 0x1_0000 % 0x100
    else if k == 2 then w / 0x100 % 0x100
    else w % 0x100
  }

  function WordBytes(w: Word): (b: seq<Byte>)
    ensures |b| == 4
  {
    [WordByte(w, 0), WordByte(w, 1), WordByte(w, 2), WordByte(w, 3)]
  }

  /** The words of a byte string, four bytes at a time. */
  function WordsOf(b: seq<Byte>): (ws: seq<Word>)
    ensures |ws| == |b| / 4
  {
    if |b| < 4 then [] else [FirstWord(b)] + WordsOf(b[4..])
  }

  function BytesOf(ws: seq<Word>): (b: seq<Byte>)
    ensures |b| == 4 * |ws|
  {
    if ws == [] then [] else WordBytes(ws[0]) + BytesOf(ws[1..])
  }

  function Words(b: Block): (ws: seq<Word>)
    ensures |ws| == 128
  {
    WordsOf(b)
  }

  function FromWords(ws: seq<Word>): Block
    requires |ws| == 128
  {
    BytesOf(ws)
  }

  lemma FirstWordOfBytes(w: Word, rest: seq<Byte>)
    ensures FirstWord(WordBytes(w) + rest) == w
  {
    SplitWord(w);
  }

  lemma SplitWord(w: int)
    requires 0 <= w < 0x1_0000_0000
    ensures w / 0x100_0000 * 0x100_0000 + w / 0x1_0000 % 0x100 * 0x1_0000 + w / 0x100 % 0x100 * 0x100 + w % 0x100 == w
  {
    var (p, q) := (w / 0x100, w / 0x1_0000);
    assert q == p / 0x100 && w / 0x100_0000 == q / 0x100;
  }

  lemma BytesOfFirstWord(b: seq<Byte>)
    requires |b| >= 4
    ensures WordBytes(FirstWord(b)) == b[..4]
  {
    var w := FirstWord(b);
    assert w / 0x100 == b[0] as int * 0x1_0000 + b[1] as int * 0x100 + b[2];
    assert w / 0x1_0000 == b[0] as int * 0x100 + b[1];
  }

  lemma {:induction false} WordsOfBytesOf(ws: seq<Word>)
    ensures WordsOf(BytesOf(ws)) == ws
  {
    if ws != [] {
      FirstWordOfBytes(ws[0], BytesOf(ws[1..]));
      assert BytesOf(ws)[4..] == BytesOf(ws[1..]);
      WordsOfBytesOf(ws[1..]);
    }
  }

  lemma {:induction false} BytesOfWordsOf(b: seq<Byte>)
    requires |b| % 4 == 0
    ensures BytesOf(WordsOf(b)) == b
  {
    if |b| >= 4 {
      BytesOfFirstWord(b);
      assert WordsOf(b)[1..] == WordsOf(b[4..]);
      BytesOfWordsOf(b[4..]);
    }
  }

  lemma WordsFromWords(ws: seq<Word>)
    requires |ws| == 128
    ensures Words(FromWords(ws)) == ws
  {
    WordsOfBytesOf(ws);
  }

  lemma FromWordsWords(b: Block)
    ensures FromWords(Words(b)) == b
  {
    BytesOfWordsOf(b);
  }

  lemma {:induction false} WordsOfZeros(b: seq<Byte>)
    requires forall i | 0 <= i < |b| :: b[i] == 0
    ensures forall i | 0 <= i < |WordsOf(b)| :: WordsOf(b)[i] == 0
  {
    if |b| >= 4 {
      WordsOfZeros(b[4..]);
    }
  }

  lemma ZeroWords()
    ensures forall i | 0 <= i < 128 :: Words(Zero)[i] == 0
  {
    WordsOfZeros(Zero);
  }

  // ---- Inodes ----------------------------------------------------------

  /** struct sfs_inode, including the words it does not use. */
  datatype InodeRecord = InodeRecord(size: Word, kind: Half, links: Half,
                                     direct: seq<Word>, indirect: Word, waste: seq<Word>)
  type Inode = ip: InodeRecord | |ip.direct| == 15 && |ip.waste| == 110
    witness InodeRecord(0, 0, 0, Zeros(15), 0, Zeros(110))

  /** The inode that a cleared block reads as. */
  type ClearedInode = ip: Inode |
      ip.size == 0 && ip.kind == 0 && ip.links == 0 && ip.indirect == 0
      && (forall i | 0 <= i < 15 :: ip.direct[i] == 0) && (forall i | 0 <= i < 110 :: ip.waste[i] == 0)
    witness InodeRecord(0, 0, 0, Zeros(15), 0, Zeros(110))
  const ZeroInode: ClearedInode

  function InodeWords(ip: Inode): (ws: seq<Word>)
    ensures |ws| == 128
  {
    [ip.size, ip.kind * 0x1_0000 + ip.links] + ip.direct + [ip.indirect] + ip.waste
  }

  function EncodeInode(ip: Inode): Block {
    FromWords(InodeWords(ip))
  }

  function InodeOfWords(ws: seq<Word>): Inode
    requires |ws| == 128
  {
    InodeRecord(ws[0], ws[1] / 0x1_0000, ws[1] % 0x1_0000, ws[2..17], ws[17], ws[18..])
  }

  function DecodeInode(b: Block): Inode {
    InodeOfWords(Words(b))
  }

  lemma InodeWordsRoundTrip(ip: Inode)
    ensures InodeOfWords(InodeWords(ip)) == ip
  {
    var ws := InodeWords(ip);
    assert ws[2..17] == ip.direct && ws[18..] == ip.waste;
  }

  lemma WordsInodeRoundTrip(ws: seq<Word>)
    requires |ws| == 128
    ensures InodeWords(InodeOfWords(ws)) == ws
  {
    assert ws[1] / 0x1_0000 * 0x1_0000 + ws[1] % 0x1_0000 == ws[1];
    assert [ws[0], ws[1]] + ws[2..17] == ws[..17];
    assert ws[..17] + [ws[17]] == ws[..18];
    assert ws[..18] + ws[18..] == ws;
  }

  lemma DecodeEncodeInode(ip: Inode)
    ensures DecodeInode(EncodeInode(ip)) == ip
  {
    WordsFromWords(InodeWords(ip));
    InodeWordsRoundTrip(ip);
  }

  lemma EncodeDecodeInode(b: Block)
    ensures EncodeInode(DecodeInode(b)) == b
  {
    WordsInodeRoundTrip(Words(b));
    FromWordsWords(b);
  }

  lemma ZeroWordsInode(ws: seq<Word>)
    requires |ws| == 128 && forall i | 0 <= i < 128 :: ws[i] == 0
    ensures InodeOfWords(ws) == ZeroInode
  {
    var ip := InodeOfWords(ws);
    assert ip.direct == ZeroInode.direct;
    assert ip.waste == ZeroInode.waste;
  }

  /** A cleared block reads as an inode that says nothing. */
  lemma DecodeCleared(b: ClearedBlock)
    ensures DecodeInode(b) == ZeroInode
  {
    WordsOfZeros(b);
    ZeroWordsInode(Words(b));
  }

  // ---- Directory entries -----------------------------------------------

  /** struct sfs_dir: an inode number (0 = free slot) and a 60-byte name field. */
  datatype Dirent = Dirent(ino: Word, field: seq<Byte>)

  function DecodeDirent(b: seq<Byte>): Dirent
    requires |b| == DIRENTSIZE
  {
    Dirent(FirstWord(b), b[4..])
  }

  function EncodeDirent(e: Dirent): (b: seq<Byte>)
    requires |e.field| == NAMELEN
    ensures |b| == DIRENTSIZE
  {
    WordBytes(e.ino) + e.field
  }

  lemma DecodeEncodeDirent(e: Dirent)
    requires |e.field| == NAMELEN
    ensures DecodeDirent(EncodeDirent(e)) == e
  {
    FirstWordOfBytes(e.ino, e.field);
    assert EncodeDirent(e)[4..] == e.field;
  }

  /** A name as the callers pass it: a C string, so no byte in it is zero. */
  predicate IsName(s: seq<Byte>) {
    forall i | 0 <= i < |s| :: s[i] != 0
  }

  /** The C string that starts at b[0]: everything before the first zero byte. */
  function CString(b: seq<Byte>): (s: seq<Byte>)
    ensures IsName(s) && |s| <= |b| && s == b[..|s|] && (|s| < |b| ==> b[|s|] == 0)
  {
    if |b| == 0 || b[0] == 0 then []
    else
      var t := CString(b[1..]);
      [b[0]] + t
  }

  /** The name of an entry; the code forces a terminator into the last byte first. */
  function NameOf(e: Dirent): seq<Byte>
    requires |e.field| == NAMELEN
  {
    CString(e.field[..NAMELEN - 1])
  }

  /** strcpy into a zeroed name field. */
  function NameField(name: seq<Byte>): (field: seq<Byte>)
    requires |name| < NAMELEN
    ensures |field| == NAMELEN
  {
    name + Zeros(NAMELEN - |name|)
  }

  lemma CStringUnique(b: seq<Byte>, s: seq<Byte>)
    requires IsName(s) && |s| <= |b| && s == b[..|s|] && (|s| < |b| ==> b[|s|] == 0)
    ensures CString(b) == s
  {
    if s != [] {
      CStringUnique(b[1..], s[1..]);
    }
  }

  lemma NameOfNewEntry(ino: Word, name: seq<Byte>)
    requires IsName(name) && |name| < NAMELEN
    ensures NameOf(Dirent(ino, NameField(name))) == name
  {
    CStringUnique(NameField(name)[..NAMELEN - 1], name);
  }
}
