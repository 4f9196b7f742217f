/**
 The data of the kernel heap (kern/lib/kheap.c): block sizes and addresses,
 the linked lists of page descriptors, and the bit words that say which
 descriptors are in use.
 */
module KheapData {
  import opened Basics

  const PAGE_SIZE := 4096
  const NSIZES := 8
  const LARGEST_SUBPAGE_SIZE := 2048
  const NPAGEREFS := 256
  const INUSE_WORDS := 8
  const INVALID_OFFSET := 0xffff
  const DEADBEEF := 0xdeadbeef
  const NULL := -1

  /** struct pageref; next pointers are indices into pagerefs[], or NULL. */
  datatype PageRef = PageRef(nextSame: int, nextAll: int, pab: nat, offset: nat, nfree: nat)

  /** The globals of kheap.c, and memory as words by address. */
  datatype HeapState = HeapState(mem: map<nat, nat>, prs: seq<PageRef>, inuse: seq<nat>, sizebases: seq<int>,
                                 allbase: int)

  /** A block handed out: block j of page p, for a request of sz bytes. */
  datatype Live = Live(p: nat, j: nat, sz: nat)

  /**
   What the globals stand for: the page lists, each page's free list as block
   numbers, the live small blocks by address, the live large ones with their
   sizes, and the page runs held (address to number of pages).
   */
  datatype Spec = Spec(all: seq<nat>, same: seq<seq<nat>>, free: map<nat, seq<nat>>,
                       live: map<nat, Live>, big: map<nat, nat>, out: map<nat, nat>)

  // ---- Sizes and addresses ---------------------------------------------

  function Size(t: nat): (s: nat)
    ensures 16 <= s <= 2048
  {
    if t == 0 then 16 else if t == 1 then 32 else if t == 2 then 64 else if t == 3 then 128
    else if t == 4 then 256 else if t == 5 then 512 else if t == 6 then 1024 else 2048
  }

  function NBlocks(t: nat): (n: nat)
    ensures 2 <= n <= 256
  {
    if t == 0 then 256 else if t == 1 then 128 else if t == 2 then 64 else if t == 3 then 32
    else if t == 4 then 16 else if t == 5 then 8 else if t == 6 then 4 else 2
  }

  lemma BlocksFillPage(t: nat)
    ensures NBlocks(t) == PAGE_SIZE / Size(t) && NBlocks(t) * Size(t) == PAGE_SIZE
  {}

  function PageAddr(pr: PageRef): nat {
    pr.pab - pr.pab % PAGE_SIZE
  }

  function BlockType(pr: PageRef): nat {
    pr.pab % PAGE_SIZE
  }

  function MkPab(pa: nat, blk: nat): nat {
    (pa - pa % PAGE_SIZE) + blk % PAGE_SIZE
  }

  lemma Unpack(pa: nat, blk: nat, pr: PageRef)
    requires pa % PAGE_SIZE == 0 && blk < NSIZES && pr.pab == MkPab(pa, blk)
    ensures PageAddr(pr) == pa && BlockType(pr) == blk
  {}

  /** Address of block j. */
  function Blk(page: nat, t: nat, j: nat): nat {
    page + Size(t) * j
  }

  lemma BlkInPage(page: nat, t: nat, j: nat)
    requires j < NBlocks(t)
    ensures page <= Blk(page, t, j) && Blk(page, t, j) + Size(t) <= page + PAGE_SIZE
  {
    BlocksFillPage(t);
    assert Size(t) * j + Size(t) == Size(t) * (j + 1) <= Size(t) * NBlocks(t);
  }

  lemma BlkApart(page: nat, t: nat, i: nat, j: nat)
    requires i < j
    ensures Blk(page, t, i) + Size(t) <= Blk(page, t, j)
  {
    assert Size(t) * i + Size(t) == Size(t) * (i + 1) <= Size(t) * j;
  }

  lemma PageDivides(page: nat, t: nat) returns (q: nat)
    requires page % PAGE_SIZE == 0
    ensures page == Size(t) * q
  {
    var k := page / PAGE_SIZE;
    q := if t == 0 then 256 * k else if t == 1 then 128 * k else if t == 2 then 64 * k else if t == 3 then 32 * k
         else if t == 4 then 16 * k else if t == 5 then 8 * k else if t == 6 then 4 * k else 2 * k;
  }

  lemma BlkAligned(page: nat, t: nat, j: nat)
    requires page % PAGE_SIZE == 0
    ensures Blk(page, t, j) % Size(t) == 0
  {
    var q := PageDivides(page, t);
    assert Size(t) * q + Size(t) * j == Size(t) * (q + j);
    SizeDivides(t, q + j);
  }

  lemma SizeDivides(t: nat, b: nat)
    ensures (Size(t) * b) % Size(t) == 0 && (Size(t) * b) / Size(t) == b
  {}

  /** The block that starts at a given offset. */
  lemma BlkAt(page: nat, t: nat, j: nat)
    ensures (Blk(page, t, j) - page) % Size(t) == 0 && (Blk(page, t, j) - page) / Size(t) == j
  {
    SizeDivides(t, j);
  }

  // ---- Lists -----------------------------------------------------------

  function At(xs: seq<nat>, k: nat): int {
    if k < |xs| then xs[k] else NULL
  }

  /** Distinct numbers below n are at most n, and are n only if they are all of them. */
  lemma {:induction false} Pigeonhole(xs: seq<nat>, n: nat)
    requires Distinct(xs) && forall k | 0 <= k < |xs| :: xs[k] < n
    ensures |xs| <= n
    ensures |xs| == n <==> forall j: nat | j < n :: j in xs
  {
    assert |xs| > 0 ==> xs[0] < n;
    if n > 0 {
      if k :| 0 <= k < |xs| && xs[k] == n - 1 {
        var ys := xs[..k] + xs[k + 1..];
        assert forall j: nat | j < n - 1 :: j in xs <==> j in ys;
        Pigeonhole(ys, n - 1);
      } else {
        Pigeonhole(xs, n - 1);
        assert n - 1 !in xs;
      }
    }
  }

  function Next(pr: PageRef, all: bool): int {
    if all then pr.nextAll else pr.nextSame
  }

  predicate ChainAt(prs: seq<PageRef>, all: bool, xs: seq<nat>, k: nat)
    requires k < |xs|
  {
    xs[k] < |prs| && Next(prs[xs[k]], all) == At(xs, k + 1)
  }

  /** The list that starts at base runs through exactly xs. */
  ghost predicate Chain(prs: seq<PageRef>, all: bool, base: int, xs: seq<nat>) {
    base == At(xs, 0) && Distinct(xs) && forall k: nat {:trigger ChainAt(prs, all, xs, k)} | k < |xs| ::
      ChainAt(prs, all, xs, k)
  }

  lemma ChainFrame(prs: seq<PageRef>, prs': seq<PageRef>, all: bool, base: int, xs: seq<nat>)
    requires Chain(prs, all, base, xs) && |prs'| == |prs|
    requires forall k | 0 <= k < |xs| && xs[k] < |prs| :: Next(prs'[xs[k]], all) == Next(prs[xs[k]], all)
    ensures Chain(prs', all, base, xs)
  {
    forall k: nat | k < |xs|
      ensures ChainAt(prs', all, xs, k)
    {
      assert ChainAt(prs, all, xs, k);
    }
  }

  /** A node that points to the old base becomes the new one. */
  lemma ChainPush(prs: seq<PageRef>, all: bool, base: int, xs: seq<nat>, p: nat)
    requires Chain(prs, all, base, xs) && p < |prs| && p !in xs && Next(prs[p], all) == base
    ensures Chain(prs, all, p, [p] + xs)
  {
    var ys := [p] + xs;
    forall k: nat | k < |ys|
      ensures ChainAt(prs, all, ys, k)
    {
      assert k > 0 ==> ChainAt(prs, all, xs, k - 1);
    }
  }

  function SetNext(pr: PageRef, all: bool, x: int): PageRef {
    if all then pr.(nextAll := x) else pr.(nextSame := x)
  }

  /** Bypassing element k. */
  lemma ChainUnlink(prs: seq<PageRef>, all: bool, base: int, xs: seq<nat>, k: nat)
    requires Chain(prs, all, base, xs) && k < |xs|
    ensures xs[k] < |prs| && (k > 0 ==> xs[k - 1] < |prs|)
    ensures k == 0 ==> Chain(prs, all, Next(prs[xs[0]], all), RemoveAt(xs, 0))
    ensures k > 0 ==>
              Chain(prs[xs[k - 1] := SetNext(prs[xs[k - 1]], all, Next(prs[xs[k]], all))], all, base, RemoveAt(xs, k))
  {
    var ys := RemoveAt(xs, k);
    assert ChainAt(prs, all, xs, k);
    assert k > 0 ==> ChainAt(prs, all, xs, k - 1);
    var prs' := if k == 0 then prs else prs[xs[k - 1] := SetNext(prs[xs[k - 1]], all, Next(prs[xs[k]], all))];
    forall m: nat | m < |ys|
      ensures ChainAt(prs', all, ys, m)
    {
      assert ChainAt(prs, all, xs, if m < k then m else m + 1);
    }
  }

  /** One of the two loops of remove_lists: find the pageref, and make what pointed at it point past it. */
  method Unlink(prs: seq<PageRef>, all: bool, base: int, p: nat, ghost xs: seq<nat>, ghost k: nat)
    returns (prs': seq<PageRef>, base': int)
    requires Chain(prs, all, base, xs) && k < |xs| && xs[k] == p
    ensures |prs'| == |prs| && Chain(prs', all, base', RemoveAt(xs, k))
    ensures forall i | 0 <= i < |prs| :: prs'[i] == SetNext(prs[i], all, Next(prs'[i], all))
    ensures prs' == prs || (k > 0 && xs[k - 1] < |prs| && prs' == prs[xs[k - 1] := prs'[xs[k - 1]]])
  {
    ChainUnlink(prs, all, base, xs, k);
    prs', base' := prs, base;
    var prev, cur := NULL, base;
    ghost var m := 0;
    while cur != NULL
      invariant 0 <= m <= k && cur == xs[m] && prev == (if m == 0 then NULL else xs[m - 1]) && prs' == prs
      invariant base' == base
      decreases k - m
    {
      assert ChainAt(prs, all, xs, m);
      if cur == p {
        assert m == k;
        if prev == NULL {
          base' := Next(prs[p], all);
        } else {
          prs' := prs[prev := SetNext(prs[prev], all, Next(prs[p], all))];
        }
        return;
      }
      prev, cur, m := cur, Next(prs[cur], all), m + 1;
    }
  }

  // ---- Bits of a word --------------------------------------------------

  function Pow2(j: nat): (m: nat)
    ensures m > 0
  {
    if j == 0 then 1 else 2 * Pow2(j - 1)
  }

  lemma {:induction false} Pow2Add(a: nat, b: nat)
    ensures Pow2(a + b) == Pow2(a) * Pow2(b)
  {
    if a > 0 {
      Pow2Add(a - 1, b);
    }
  }

  lemma WordSize()
    ensures Pow2(32) == 0x1_0000_0000
  {
    assert Pow2(8) == 256;
    Pow2Add(8, 8);
    Pow2Add(16, 16);
  }

  /** Whether w & (1 << j) is nonzero. */
  predicate Bit(w: nat, j: nat) {
    if j == 0 then w % 2 == 1 else Bit(w / 2, j - 1)
  }

  lemma {:induction false} ZeroBits(j: nat)
    ensures !Bit(0, j)
  {
    if j > 0 {
      ZeroBits(j - 1);
    }
  }

  /** Or-ing in a clear bit adds its power of two, and sets that bit alone. */
  lemma {:induction false} AddBit(w: nat, i: nat, j: nat)
    requires !Bit(w, i)
    ensures Bit(w + Pow2(i), j) == (i == j || Bit(w, j))
  {
    if i > 0 {
      assert (w + Pow2(i)) % 2 == w % 2 && (w + Pow2(i)) / 2 == w / 2 + Pow2(i - 1);
      if j > 0 {
        AddBit(w / 2, i - 1, j - 1);
      }
    } else if j > 0 {
      assert (w + 1) / 2 == w / 2;
    }
  }

  /** And-ing out a set bit subtracts it. */
  lemma {:induction false} SubBit(w: nat, i: nat)
    requires Bit(w, i)
    ensures w >= Pow2(i) && !Bit(w - Pow2(i), i)
  {
    if i > 0 {
      SubBit(w / 2, i - 1);
      assert (w - Pow2(i)) / 2 == w / 2 - Pow2(i - 1);
    }
  }

  lemma {:induction false} AllOnes(w: nat, n: nat, j: nat)
    requires w == Pow2(n) - 1 && j < n
    ensures Bit(w, j)
  {
    HalfOfOnes(w, Pow2(n - 1));
    if j > 0 {
      AllOnes(w / 2, n - 1, j - 1);
    }
  }

  lemma HalfOfOnes(w: nat, m: nat)
    requires w == 2 * m - 1
    ensures w % 2 == 1 && w / 2 == m - 1
  {}

  lemma {:induction false} ClearBit(w: nat, n: nat) returns (j: nat)
    requires w < Pow2(n) - 1
    ensures j < n && !Bit(w, j)
  {
    if w % 2 == 0 {
      j := 0;
    } else {
      j := ClearBit(w / 2, n - 1);
      j := j + 1;
    }
  }

  lemma {:induction false} Pow2Below(i: nat, n: nat, w: nat)
    requires i < n && w < Pow2(n) && !Bit(w, i)
    ensures w + Pow2(i) < Pow2(n)
  {
    if i > 0 {
      Pow2Below(i - 1, n - 1, w / 2);
      DoubleBelow(w, Pow2(i - 1), Pow2(n - 1));
    } else {
      EvenBelow(w, Pow2(n - 1));
    }
  }

  lemma DoubleBelow(w: nat, a: nat, m: nat)
    requires w / 2 + a < m
    ensures w + 2 * a < 2 * m
  {}

  lemma EvenBelow(w: nat, m: nat)
    requires w % 2 == 0 && w < 2 * m
    ensures w + 1 < 2 * m
  {}

  // ---- The table of page descriptors -----------------------------------

  ghost predicate WordsOk(ws: seq<nat>) {
    |ws| == INUSE_WORDS && forall i | 0 <= i < INUSE_WORDS :: ws[i] < Pow2(32)
  }

  predicate InUse(ws: seq<nat>, k: nat)
    requires |ws| == INUSE_WORDS && k < NPAGEREFS
  {
    Bit(ws[k / 32], k % 32)
  }

  /** allocpageref: the least descriptor not in use, or NULL when there is none. */
  method AllocPageRef(ws: seq<nat>) returns (r: int, ws': seq<nat>)
    requires WordsOk(ws)
    ensures WordsOk(ws') && NULL <= r < NPAGEREFS
    ensures r == NULL ==> ws' == ws && forall k: nat | k < NPAGEREFS :: InUse(ws, k)
    ensures r != NULL ==> !InUse(ws, r) && forall k: nat | k < r :: InUse(ws, k)
    ensures r != NULL ==> forall k: nat | k < NPAGEREFS :: InUse(ws', k) == (k == r || InUse(ws, k))
  {
    WordSize();
    for i := 0 to INUSE_WORDS
      invariant forall k: nat | k < 32 * i :: InUse(ws, k)
    {
      if ws[i] == 0xffff_ffff {
        AllOnesWord(ws, i);
        continue;
      }
      ghost var free := ClearBit(ws[i], 32);
      for j := 0 to 32
        invariant forall m: nat | m < j :: Bit(ws[i], m)
      {
        if !Bit(ws[i], j) {
          r, ws' := 32 * i + j, ws[i := ws[i] + Pow2(j)];
          MarkInUse(ws, i, j);
          return;
        }
      }
      assert false;
    }
    return NULL, ws;
  }

  lemma MarkInUse(ws: seq<nat>, i: nat, j: nat)
    requires WordsOk(ws) && i < INUSE_WORDS && j < 32 && !Bit(ws[i], j)
    ensures var ws' := ws[i := ws[i] + Pow2(j)];
            WordsOk(ws') && forall k: nat | k < NPAGEREFS :: InUse(ws', k) == (k == 32 * i + j || InUse(ws, k))
  {
    Pow2Below(j, 32, ws[i]);
    var ws' := ws[i := ws[i] + Pow2(j)];
    forall k: nat | k < NPAGEREFS
      ensures InUse(ws', k) == (k == 32 * i + j || InUse(ws, k))
    {
      AddBit(ws[i], j, k % 32);
    }
  }

  lemma AllOnesWord(ws: seq<nat>, i: nat)
    requires WordsOk(ws) && i < INUSE_WORDS && ws[i] == 0xffff_ffff
    ensures forall k: nat | 32 * i <= k < 32 * (i + 1) :: InUse(ws, k)
  {
    WordSize();
    forall k: nat | 32 * i <= k < 32 * (i + 1)
      ensures InUse(ws, k)
    {
      AllOnes(ws[i], 32, k % 32);
    }
  }

  /** freepageref: the descriptor must be in use. */
  method FreePageRef(ws: seq<nat>, p: nat) returns (ws': seq<nat>)
    requires WordsOk(ws) && p < NPAGEREFS && InUse(ws, p)
    ensures WordsOk(ws') && forall k: nat | k < NPAGEREFS :: InUse(ws', k) == (k != p && InUse(ws, k))
  {
    var i, j := p / 32, p % 32;
    SubBit(ws[i], j);
    ws' := ws[i := ws[i] - Pow2(j)];
    forall k: nat | k < NPAGEREFS
      ensures InUse(ws', k) == (k != p && InUse(ws, k))
    {
      AddBit(ws'[i], j, k % 32);
    }
  }
}
