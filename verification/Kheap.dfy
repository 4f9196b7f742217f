/**
 The kernel heap (kern/lib/kheap.c): small blocks carved out of pages, one
 block size to a page, with each page's free list threaded through the free
 blocks themselves; whole pages for everything larger. Panics and assertions
 of the source are `assert`s or preconditions here.
 */
module Kheap {
  import opened Basics
  import opened KheapData

  // ---- The invariant ---------------------------------------------------

  /** Memory changed at most in the given range. */
  ghost predicate OnlyIn(mem: map<nat, nat>, mem': map<nat, nat>, lo: nat, len: nat) {
    forall x: nat {:trigger Load(mem', x)} | !(lo <= x < lo + len) :: Load(mem', x) == Load(mem, x)
  }

  lemma StoreIn(mem: map<nat, nat>, mem': map<nat, nat>, lo: nat, len: nat, a: nat, x: nat)
    requires OnlyIn(mem, mem', lo, len) && lo <= a < lo + len
    ensures OnlyIn(mem, mem'[a := x], lo, len)
  {
    forall y: nat | !(lo <= y < lo + len)
      ensures Load(mem'[a := x], y) == Load(mem, y)
    {
      assert Load(mem', y) == Load(mem, y);
    }
  }

  /** Free block number k of the list points to the next one, the last one nowhere. */
  predicate FreeLink(mem: map<nat, nat>, page: nat, t: nat, fl: seq<nat>, k: nat)
    requires k < |fl|
  {
    Load(mem, Blk(page, t, fl[k])) == if k + 1 < |fl| then Blk(page, t, fl[k + 1]) else 0
  }

  /** A block is free or live. */
  predicate BlockState(page: nat, t: nat, fl: seq<nat>, live: map<nat, Live>, j: nat) {
    j in fl <==> Blk(page, t, j) !in live
  }

  function Offset(page: nat, t: nat, fl: seq<nat>): nat {
    if fl == [] then INVALID_OFFSET else Blk(page, t, fl[0]) - page
  }

  /** The page of one descriptor, with free list fl. */
  ghost predicate PageOk(pr: PageRef, fl: seq<nat>, mem: map<nat, nat>, live: map<nat, Live>) {
    var (page, t) := (PageAddr(pr), BlockType(pr));
    && page > 0 && t < NSIZES
    && Distinct(fl) && (forall k | 0 <= k < |fl| :: fl[k] < NBlocks(t))
    && pr.nfree == |fl| && pr.offset == Offset(page, t, fl)
    && (forall k: nat {:trigger FreeLink(mem, page, t, fl, k)} | k < |fl| :: FreeLink(mem, page, t, fl, k))
    && (forall j: nat {:trigger BlockState(page, t, fl, live, j)} | j < NBlocks(t) :: BlockState(page, t, fl, live, j))
  }

  ghost predicate PageIn(prs: seq<PageRef>, free: map<nat, seq<nat>>, mem: map<nat, nat>, live: map<nat, Live>,
                         p: nat)
  {
    p < |prs| && p in free && PageOk(prs[p], free[p], mem, live)
  }

  /** A live block is where its record says, and large enough. */
  predicate LiveOk(prs: seq<PageRef>, all: seq<nat>, live: map<nat, Live>, a: nat)
    requires a in live
  {
    var l := live[a];
    && l.p in all && l.p < |prs|
    && var (page, t) := (PageAddr(prs[l.p]), BlockType(prs[l.p]));
       l.j < NBlocks(t) && a == Blk(page, t, l.j) && l.sz <= Size(t)
  }

  /** The list of one size holds exactly the pages of that size. */
  ghost predicate ClassOk(prs: seq<PageRef>, sizebases: seq<int>, all: seq<nat>, same: seq<seq<nat>>, t: nat)
    requires t < |sizebases| && t < |same|
  {
    && Chain(prs, false, sizebases[t], same[t])
    && forall p: nat {:trigger p in same[t]} :: p in same[t] <==> p in all && p < |prs| && BlockType(prs[p]) == t
  }

  predicate PagesDiffer(prs: seq<PageRef>, p: nat, q: nat) {
    p < |prs| && q < |prs| && PageAddr(prs[p]) != PageAddr(prs[q])
  }

  ghost predicate PagesOk(prs: seq<PageRef>, mem: map<nat, nat>, all: seq<nat>, free: map<nat, seq<nat>>,
                          live: map<nat, Live>)
  {
    && (forall p {:trigger PageIn(prs, free, mem, live, p)} | p in all :: PageIn(prs, free, mem, live, p))
    && (forall p, q {:trigger PagesDiffer(prs, p, q)} | p in all && q in all && p != q :: PagesDiffer(prs, p, q))
    && (forall a {:trigger LiveOk(prs, all, live, a)} | a in live :: LiveOk(prs, all, live, a))
  }

  ghost predicate ListsOk(prs: seq<PageRef>, inuse: seq<nat>, sizebases: seq<int>, allbase: int, all: seq<nat>,
                          same: seq<seq<nat>>)
  {
    && |prs| == NPAGEREFS && |sizebases| == NSIZES && |same| == NSIZES && WordsOk(inuse)
    && Chain(prs, true, allbase, all)
    && (forall t: nat {:trigger ClassOk(prs, sizebases, all, same, t)} | t < NSIZES ::
          ClassOk(prs, sizebases, all, same, t))
    && (forall k: nat {:trigger InUse(inuse, k)} | k < NPAGEREFS :: InUse(inuse, k) <==> k in all)
  }

  /** The run of n pages at a. */
  predicate Run(out: map<nat, nat>, a: nat) {
    a in out && a > 0 && a % PAGE_SIZE == 0 && out[a] > 0
  }

  predicate Apart(out: map<nat, nat>, a: nat, b: nat)
    requires a in out && b in out
  {
    a < b ==> a + PAGE_SIZE * out[a] <= b
  }

  /** The page runs held do not overlap; each is a page of small blocks or one large block. */
  ghost predicate RunsOk(prs: seq<PageRef>, all: seq<nat>, big: map<nat, nat>, out: map<nat, nat>) {
    && (forall a {:trigger Run(out, a)} | a in out :: Run(out, a))
    && (forall a, b {:trigger Apart(out, a, b)} | a in out && b in out :: Apart(out, a, b))
    && (forall a {:trigger a in big} | a in big :: a in out && big[a] <= PAGE_SIZE * out[a])
    && (forall p {:trigger PageRun(prs, big, out, p)} | p in all :: PageRun(prs, big, out, p))
    && (forall a {:trigger PageOf(prs, all, a)} | a in out && a !in big :: PageOf(prs, all, a))
  }

  predicate PageRun(prs: seq<PageRef>, big: map<nat, nat>, out: map<nat, nat>, p: nat) {
    p < |prs| && PageAddr(prs[p]) in out && out[PageAddr(prs[p])] == 1 && PageAddr(prs[p]) !in big
  }

  ghost predicate PageOf(prs: seq<PageRef>, all: seq<nat>, a: nat) {
    exists p :: p in all && p < |prs| && PageAddr(prs[p]) == a
  }

  /** All of it, save that a page may be wholly free. */
  ghost predicate Core(h: HeapState, g: Spec) {
    && ListsOk(h.prs, h.inuse, h.sizebases, h.allbase, g.all, g.same)
    && PagesOk(h.prs, h.mem, g.all, g.free, g.live)
    && RunsOk(h.prs, g.all, g.big, g.out)
  }

  predicate NotAllFree(prs: seq<PageRef>, free: map<nat, seq<nat>>, p: nat) {
    p < |prs| && p in free && |free[p]| < NBlocks(BlockType(prs[p]))
  }

  ghost predicate Good(h: HeapState, g: Spec) {
    Core(h, g) && forall p {:trigger NotAllFree(h.prs, g.free, p)} | p in g.all :: NotAllFree(h.prs, g.free, p)
  }

  // ---- What the invariant says -----------------------------------------

  lemma LivePage(h: HeapState, g: Spec, a: nat)
    requires Core(h, g) && a in g.live
    ensures LiveOk(h.prs, g.all, g.live, a)
    ensures var (l, pr) := (g.live[a], h.prs[g.live[a].p]);
            && PageIn(h.prs, g.free, h.mem, g.live, l.p) && BlockType(pr) < NSIZES
            && PageAddr(pr) in g.out && g.out[PageAddr(pr)] == 1 && PageAddr(pr) !in g.big
            && PageAddr(pr) <= a && a + Size(BlockType(pr)) <= PageAddr(pr) + PAGE_SIZE
  {
    assert LiveOk(h.prs, g.all, g.live, a);
    var l := g.live[a];
    assert PageIn(h.prs, g.free, h.mem, g.live, l.p) && PageRun(h.prs, g.big, g.out, l.p);
    BlkInPage(PageAddr(h.prs[l.p]), BlockType(h.prs[l.p]), l.j);
  }

  function BlockSize(h: HeapState, g: Spec, a: nat): nat
    requires a in g.live && g.live[a].p < |h.prs|
  {
    Size(BlockType(h.prs[g.live[a].p]))
  }

  lemma PagesApart(h: HeapState, g: Spec, x: nat, y: nat)
    requires Core(h, g) && x in g.out && y in g.out && x != y
    ensures x + PAGE_SIZE * g.out[x] <= y || y + PAGE_SIZE * g.out[y] <= x
  {
    assert Apart(g.out, x, y) && Apart(g.out, y, x);
  }

  /** Two live blocks never overlap. */
  lemma LiveDisjoint(h: HeapState, g: Spec, a: nat, b: nat)
    requires Core(h, g) && a in g.live && b in g.live && a != b
    ensures g.live[a].p < |h.prs| && g.live[b].p < |h.prs|
    ensures a + BlockSize(h, g, a) <= b || b + BlockSize(h, g, b) <= a
  {
    LivePage(h, g, a);
    LivePage(h, g, b);
    var (l, m) := (g.live[a], g.live[b]);
    if l.p == m.p {
      var (page, t) := (PageAddr(h.prs[l.p]), BlockType(h.prs[l.p]));
      if l.j < m.j {
        BlkApart(page, t, l.j, m.j);
      } else if m.j < l.j {
        BlkApart(page, t, m.j, l.j);
      }
    } else {
      assert PagesDiffer(h.prs, l.p, m.p);
      PagesApart(h, g, PageAddr(h.prs[l.p]), PageAddr(h.prs[m.p]));
    }
  }

  /** A live block is aligned to its class, holds the bytes asked for, and lies clear of every large block. */
  lemma LiveFits(h: HeapState, g: Spec, a: nat)
    requires Core(h, g) && a in g.live
    ensures g.live[a].p < |h.prs|
    ensures a > 0 && a % BlockSize(h, g, a) == 0 && g.live[a].sz <= BlockSize(h, g, a)
    ensures forall b | b in g.big :: b in g.out && (a + BlockSize(h, g, a) <= b || b + PAGE_SIZE * g.out[b] <= a)
  {
    LivePage(h, g, a);
    var l := g.live[a];
    BlkAligned(PageAddr(h.prs[l.p]), BlockType(h.prs[l.p]), l.j);
    forall b | b in g.big
      ensures b in g.out && (a + BlockSize(h, g, a) <= b || b + PAGE_SIZE * g.out[b] <= a)
    {
      PagesApart(h, g, PageAddr(h.prs[l.p]), b);
    }
  }

  // ---- Taking and giving back one block --------------------------------

  /** Only free counts and free-list heads differ. */
  ghost predicate SameLinks(prs: seq<PageRef>, prs': seq<PageRef>) {
    |prs'| == |prs| && forall i {:trigger prs'[i]} | 0 <= i < |prs| ::
      prs'[i].pab == prs[i].pab && prs'[i].nextAll == prs[i].nextAll && prs'[i].nextSame == prs[i].nextSame
  }

  lemma ListsFrame(h: HeapState, g: Spec, prs': seq<PageRef>)
    requires Core(h, g) && SameLinks(h.prs, prs')
    ensures ListsOk(prs', h.inuse, h.sizebases, h.allbase, g.all, g.same) && RunsOk(prs', g.all, g.big, g.out)
  {
    ChainFrame(h.prs, prs', true, h.allbase, g.all);
    forall t: nat | t < NSIZES
      ensures ClassOk(prs', h.sizebases, g.all, g.same, t)
    {
      assert ClassOk(h.prs, h.sizebases, g.all, g.same, t);
      ChainFrame(h.prs, prs', false, h.sizebases[t], g.same[t]);
    }
    forall p | p in g.all
      ensures PageRun(prs', g.big, g.out, p)
    {
      assert PageRun(h.prs, g.big, g.out, p);
    }
    forall a | a in g.out && a !in g.big
      ensures PageOf(prs', g.all, a)
    {
      assert PageOf(h.prs, g.all, a);
      var p :| p in g.all && p < |h.prs| && PageAddr(h.prs[p]) == a;
      assert PageAddr(prs'[p]) == a;
    }
  }

  /** A page whose memory and live blocks did not change. */
  lemma PageFrame(pr: PageRef, fl: seq<nat>, mem: map<nat, nat>, live: map<nat, Live>, mem': map<nat, nat>,
                  live': map<nat, Live>)
    requires PageOk(pr, fl, mem, live)
    requires forall x: nat | PageAddr(pr) <= x < PageAddr(pr) + PAGE_SIZE ::
               Load(mem', x) == Load(mem, x) && (x in live' <==> x in live)
    ensures PageOk(pr, fl, mem', live')
  {
    var (page, t) := (PageAddr(pr), BlockType(pr));
    forall k: nat | k < |fl|
      ensures FreeLink(mem', page, t, fl, k)
    {
      assert FreeLink(mem, page, t, fl, k);
      BlkInPage(page, t, fl[k]);
    }
    forall j: nat | j < NBlocks(t)
      ensures BlockState(page, t, fl, live', j)
    {
      assert BlockState(page, t, fl, live, j);
      BlkInPage(page, t, j);
    }
  }

  lemma BlkInjective(page: nat, t: nat, i: nat, j: nat)
    requires i != j
    ensures Blk(page, t, i) != Blk(page, t, j)
  {
    if i < j {
      BlkApart(page, t, i, j);
    } else {
      BlkApart(page, t, j, i);
    }
  }

  /** The descriptor with the first free block gone, as the code leaves it. */
  function Popped(pr: PageRef, fl: seq<nat>): PageRef
    requires pr.nfree > 0 && fl != []
  {
    pr.(nfree := pr.nfree - 1, offset := Offset(PageAddr(pr), BlockType(pr), fl[1..]))
  }

  lemma PageTake(pr: PageRef, fl: seq<nat>, mem: map<nat, nat>, live: map<nat, Live>, l: Live)
    requires PageOk(pr, fl, mem, live) && fl != []
    ensures PageOk(Popped(pr, fl), fl[1..], mem, live[Blk(PageAddr(pr), BlockType(pr), fl[0]) := l])
  {
    var (page, t, rest) := (PageAddr(pr), BlockType(pr), fl[1..]);
    var live' := live[Blk(page, t, fl[0]) := l];
    forall k: nat | k < |rest|
      ensures FreeLink(mem, page, t, rest, k)
    {
      assert FreeLink(mem, page, t, fl, k + 1);
    }
    forall j: nat | j < NBlocks(t)
      ensures BlockState(page, t, rest, live', j)
    {
      assert BlockState(page, t, fl, live, j);
      if j != fl[0] {
        BlkInjective(page, t, j, fl[0]);
        assert j in fl <==> j in rest;
      }
    }
  }

  function Pushed(pr: PageRef, fl: seq<nat>, j: nat): PageRef {
    pr.(nfree := pr.nfree + 1, offset := Offset(PageAddr(pr), BlockType(pr), [j] + fl))
  }

  lemma PageGive(pr: PageRef, fl: seq<nat>, mem: map<nat, nat>, live: map<nat, Live>, j: nat, mem': map<nat, nat>)
    requires PageOk(pr, fl, mem, live) && j < NBlocks(BlockType(pr)) && Blk(PageAddr(pr), BlockType(pr), j) in live
    requires OnlyIn(mem, mem', Blk(PageAddr(pr), BlockType(pr), j), Size(BlockType(pr)))
    requires Load(mem', Blk(PageAddr(pr), BlockType(pr), j)) ==
               if fl == [] then 0 else Blk(PageAddr(pr), BlockType(pr), fl[0])
    ensures PageOk(Pushed(pr, fl, j), [j] + fl, mem', live - {Blk(PageAddr(pr), BlockType(pr), j)})
  {
    var (page, t, more) := (PageAddr(pr), BlockType(pr), [j] + fl);
    var live' := live - {Blk(page, t, j)};
    assert BlockState(page, t, fl, live, j);
    forall k: nat | k < |more|
      ensures FreeLink(mem', page, t, more, k)
    {
      if k > 0 {
        assert FreeLink(mem, page, t, fl, k - 1);
        if j < fl[k - 1] {
          BlkApart(page, t, j, fl[k - 1]);
        } else {
          BlkApart(page, t, fl[k - 1], j);
        }
      }
    }
    forall i: nat | i < NBlocks(t)
      ensures BlockState(page, t, more, live', i)
    {
      assert BlockState(page, t, fl, live, i);
      if i != j {
        BlkInjective(page, t, i, j);
      }
    }
  }

  /** Where a block lies relative to another page. */
  lemma OtherPage(h: HeapState, g: Spec, p: nat, q: nat)
    requires Core(h, g) && p in g.all && q in g.all && p != q
    ensures p < |h.prs| && q < |h.prs|
    ensures var (x, y) := (PageAddr(h.prs[p]), PageAddr(h.prs[q])); x + PAGE_SIZE <= y || y + PAGE_SIZE <= x
  {
    assert PageIn(h.prs, g.free, h.mem, g.live, p) && PageIn(h.prs, g.free, h.mem, g.live, q);
    assert PageRun(h.prs, g.big, g.out, p) && PageRun(h.prs, g.big, g.out, q) && PagesDiffer(h.prs, p, q);
    PagesApart(h, g, PageAddr(h.prs[p]), PageAddr(h.prs[q]));
  }

  /** Replacing the records of page p, given that p is in order afterwards and nothing else changed. */
  lemma OnePage(h: HeapState, g: Spec, p: nat, pr: PageRef, fl: seq<nat>, mem': map<nat, nat>, live': map<nat, Live>)
    requires Core(h, g) && p in g.all && p < |h.prs|
    requires pr.pab == h.prs[p].pab && pr.nextAll == h.prs[p].nextAll && pr.nextSame == h.prs[p].nextSame
    requires PageOk(pr, fl, mem', live') && OnlyIn(h.mem, mem', PageAddr(pr), PAGE_SIZE)
    requires forall x: nat | (x in live') != (x in g.live) :: PageAddr(pr) <= x < PageAddr(pr) + PAGE_SIZE
    requires forall x: nat | x in live' :: LiveOk(h.prs, g.all, live', x)
    ensures Core(h.(prs := h.prs[p := pr], mem := mem'), g.(free := g.free[p := fl], live := live'))
  {
    var (prs', free') := (h.prs[p := pr], g.free[p := fl]);
    ListsFrame(h, g, prs');
    forall q | q in g.all
      ensures PageIn(prs', free', mem', live', q)
    {
      assert PageIn(h.prs, g.free, h.mem, g.live, q);
      if q != p {
        OtherPage(h, g, p, q);
        PageFrame(h.prs[q], g.free[q], h.mem, g.live, mem', live');
      }
    }
    forall q, r | q in g.all && r in g.all && q != r
      ensures PagesDiffer(prs', q, r)
    {
      assert PagesDiffer(h.prs, q, r);
    }
    forall a | a in live'
      ensures LiveOk(prs', g.all, live', a)
    {
      assert LiveOk(h.prs, g.all, live', a);
    }
  }

  /** Popping the first free block of page p. */
  lemma Take(h: HeapState, g: Spec, p: nat, sz: nat)
    requires Core(h, g) && p in g.all && p < |h.prs| && p in g.free && g.free[p] != []
    requires sz <= Size(BlockType(h.prs[p]))
    ensures h.prs[p].nfree > 0
    ensures var (pr, fl) := (h.prs[p], g.free[p]);
            var a := Blk(PageAddr(pr), BlockType(pr), fl[0]);
            && a !in g.live && a > 0
            && Core(h.(prs := h.prs[p := Popped(pr, fl)]),
                    g.(free := g.free[p := fl[1..]], live := g.live[a := Live(p, fl[0], sz)]))
  {
    var (pr, fl) := (h.prs[p], g.free[p]);
    var (page, t) := (PageAddr(pr), BlockType(pr));
    assert PageIn(h.prs, g.free, h.mem, g.live, p) && BlockState(page, t, fl, g.live, fl[0]);
    BlkInPage(page, t, fl[0]);
    var l := Live(p, fl[0], sz);
    var live' := g.live[Blk(page, t, fl[0]) := l];
    PageTake(pr, fl, h.mem, g.live, l);
    forall x: nat | x in live'
      ensures LiveOk(h.prs, g.all, live', x)
    {
      assert x in g.live ==> LiveOk(h.prs, g.all, g.live, x);
    }
    OnePage(h, g, p, Popped(pr, fl), fl[1..], h.mem, live');
    assert h.(prs := h.prs[p := Popped(pr, fl)], mem := h.mem) == h.(prs := h.prs[p := Popped(pr, fl)]);
  }

  /** Pushing a live block onto its page's free list. */
  lemma Give(h: HeapState, g: Spec, a: nat, mem': map<nat, nat>)
    requires Core(h, g) && a in g.live && g.live[a].p < |h.prs| && g.live[a].p in g.free
    requires var (pr, fl) := (h.prs[g.live[a].p], g.free[g.live[a].p]);
             && OnlyIn(h.mem, mem', a, Size(BlockType(pr)))
             && Load(mem', a) == if fl == [] then 0 else Blk(PageAddr(pr), BlockType(pr), fl[0])
    ensures var (p, j) := (g.live[a].p, g.live[a].j);
            var (pr, fl) := (h.prs[p], g.free[p]);
            Core(h.(prs := h.prs[p := Pushed(pr, fl, j)], mem := mem'),
                 g.(free := g.free[p := [j] + fl], live := g.live - {a}))
  {
    LivePage(h, g, a);
    var (p, j) := (g.live[a].p, g.live[a].j);
    var (pr, fl, live') := (h.prs[p], g.free[p], g.live - {a});
    PageGive(pr, fl, h.mem, g.live, j, mem');
    forall x: nat | x in live'
      ensures LiveOk(h.prs, g.all, live', x)
    {
      assert LiveOk(h.prs, g.all, g.live, x);
    }
    OnePage(h, g, p, Pushed(pr, fl, j), [j] + fl, mem', live');
  }

  // ---- A new page ------------------------------------------------------

  /** The order in which a fresh page's blocks are strung together: the last block first. */
  function Down(n: nat): (xs: seq<nat>)
    ensures |xs| == n && (forall k | 0 <= k < n :: xs[k] == n - 1 - k)
  {
    if n == 0 then [] else [n - 1] + Down(n - 1)
  }

  lemma AllDown(n: nat, j: nat)
    requires j < n
    ensures j in Down(n)
  {
    assert Down(n)[n - 1 - j] == j;
  }

  /** What alloc_kpages promises: 0, or n pages clear of everything held. */
  predicate RunClear(out: map<nat, nat>, a: nat, n: nat, b: nat)
    requires b in out
  {
    b + PAGE_SIZE * out[b] <= a || a + PAGE_SIZE * n <= b
  }

  ghost predicate FreshRun(out: map<nat, nat>, a: nat, n: nat) {
    a > 0 && a % PAGE_SIZE == 0 && n > 0 && forall b {:trigger RunClear(out, a, n, b)} | b in out ::
      RunClear(out, a, n, b)
  }

  lemma FreshIsNew(out: map<nat, nat>, a: nat, n: nat)
    requires FreshRun(out, a, n) && forall b {:trigger Run(out, b)} | b in out :: Run(out, b)
    ensures a !in out
  {
    assert a in out ==> RunClear(out, a, n, a) && Run(out, a);
  }

  /** Taking a fresh run. */
  lemma AddRun(out: map<nat, nat>, a: nat, n: nat)
    requires FreshRun(out, a, n) && a !in out
    requires forall b {:trigger Run(out, b)} | b in out :: Run(out, b)
    requires forall b, c {:trigger Apart(out, b, c)} | b in out && c in out :: Apart(out, b, c)
    ensures var out' := out[a := n];
            && (forall b {:trigger Run(out', b)} | b in out' :: Run(out', b))
            && (forall b, c {:trigger Apart(out', b, c)} | b in out' && c in out' :: Apart(out', b, c))
  {
    var out' := out[a := n];
    forall b | b in out'
      ensures Run(out', b)
    {
      assert b in out ==> Run(out, b);
    }
    forall b, c | b in out' && c in out'
      ensures Apart(out', b, c)
    {
      assert b in out && c in out ==> Apart(out, b, c);
      assert b in out ==> RunClear(out, a, n, b) && Run(out, b);
      assert c in out ==> RunClear(out, a, n, c) && Run(out, c);
    }
  }

  /** The fresh page's words, as the loop leaves them. */
  predicate StrungAt(mem: map<nat, nat>, page: nat, t: nat, j: nat) {
    Load(mem, Blk(page, t, j)) == if j == 0 then 0 else Blk(page, t, j - 1)
  }

  ghost predicate Strung(mem: map<nat, nat>, page: nat, t: nat, hi: nat) {
    forall j: nat {:trigger StrungAt(mem, page, t, j)} | j < hi :: StrungAt(mem, page, t, j)
  }

  lemma NewPageOk(pr: PageRef, page: nat, t: nat, mem: map<nat, nat>, live: map<nat, Live>)
    requires t < NSIZES && page > 0 && PageAddr(pr) == page && BlockType(pr) == t
    requires pr.nfree == NBlocks(t) && pr.offset == Blk(page, t, NBlocks(t) - 1) - page
    requires Strung(mem, page, t, NBlocks(t))
    requires forall x: nat | page <= x < page + PAGE_SIZE :: x !in live
    ensures PageOk(pr, Down(NBlocks(t)), mem, live)
  {
    var fl := Down(NBlocks(t));
    forall k: nat | k < |fl|
      ensures FreeLink(mem, page, t, fl, k)
    {
      assert fl[k] == NBlocks(t) - 1 - k && StrungAt(mem, page, t, fl[k]);
    }
    forall j: nat | j < NBlocks(t)
      ensures BlockState(page, t, fl, live, j)
    {
      AllDown(NBlocks(t), j);
      BlkInPage(page, t, j);
    }
  }

  /** No live block lies in a fresh run. */
  lemma LiveNotFresh(h: HeapState, g: Spec, page: nat, n: nat, x: nat)
    requires Core(h, g) && FreshRun(g.out, page, n) && x in g.live
    ensures !(page <= x < page + PAGE_SIZE * n)
  {
    LivePage(h, g, x);
    assert RunClear(g.out, page, n, PageAddr(h.prs[g.live[x].p]));
  }

  lemma AddLists(h: HeapState, g: Spec, p: nat, t: nat, prs': seq<PageRef>, ws': seq<nat>)
    requires ListsOk(h.prs, h.inuse, h.sizebases, h.allbase, g.all, g.same) && p < NPAGEREFS && p !in g.all
    requires t < NSIZES
    requires |prs'| == NPAGEREFS && prs' == h.prs[p := prs'[p]] && BlockType(prs'[p]) == t
    requires prs'[p].nextAll == h.allbase && prs'[p].nextSame == h.sizebases[t]
    requires WordsOk(ws') && forall k: nat | k < NPAGEREFS :: InUse(ws', k) == (k == p || InUse(h.inuse, k))
    ensures ListsOk(prs', ws', h.sizebases[t := p], p, [p] + g.all, g.same[t := [p] + g.same[t]])
  {
    var (all', same', bases') := ([p] + g.all, g.same[t := [p] + g.same[t]], h.sizebases[t := p]);
    ChainFrame(h.prs, prs', true, h.allbase, g.all);
    ChainPush(prs', true, h.allbase, g.all, p);
    forall u: nat | u < NSIZES
      ensures ClassOk(prs', bases', all', same', u)
    {
      assert ClassOk(h.prs, h.sizebases, g.all, g.same, u) && p !in g.same[u];
      ChainFrame(h.prs, prs', false, h.sizebases[u], g.same[u]);
      if u == t {
        ChainPush(prs', false, h.sizebases[u], g.same[u], p);
      }
    }
    forall k: nat | k < NPAGEREFS
      ensures InUse(ws', k) <==> k in all'
    {
      assert InUse(h.inuse, k) <==> k in g.all;
    }
  }

  lemma AddPages(h: HeapState, g: Spec, p: nat, prs': seq<PageRef>, fl: seq<nat>, mem': map<nat, nat>)
    requires Core(h, g) && p < NPAGEREFS && p !in g.all && |prs'| == NPAGEREFS && prs' == h.prs[p := prs'[p]]
    requires FreshRun(g.out, PageAddr(prs'[p]), 1) && OnlyIn(h.mem, mem', PageAddr(prs'[p]), PAGE_SIZE)
    requires PageOk(prs'[p], fl, mem', g.live)
    ensures PagesOk(prs', mem', [p] + g.all, g.free[p := fl], g.live)
  {
    var (page, all', free') := (PageAddr(prs'[p]), [p] + g.all, g.free[p := fl]);
    FreshIsNew(g.out, page, 1);
    forall q | q in all'
      ensures PageIn(prs', free', mem', g.live, q) && (q != p ==> PageAddr(prs'[q]) != page)
    {
      if q != p {
        assert PageIn(h.prs, g.free, h.mem, g.live, q) && PageRun(h.prs, g.big, g.out, q);
        assert RunClear(g.out, page, 1, PageAddr(h.prs[q]));
        PageFrame(h.prs[q], g.free[q], h.mem, g.live, mem', g.live);
      }
    }
    forall q, r | q in all' && r in all' && q != r
      ensures PagesDiffer(prs', q, r)
    {
      assert q != p && r != p ==> PagesDiffer(h.prs, q, r);
      assert PageIn(prs', free', mem', g.live, q) && PageIn(prs', free', mem', g.live, r);
    }
    forall a | a in g.live
      ensures LiveOk(prs', all', g.live, a)
    {
      assert LiveOk(h.prs, g.all, g.live, a);
    }
  }

  lemma AddRuns(h: HeapState, g: Spec, p: nat, prs': seq<PageRef>)
    requires Core(h, g) && p < NPAGEREFS && p !in g.all && |prs'| == NPAGEREFS && prs' == h.prs[p := prs'[p]]
    requires FreshRun(g.out, PageAddr(prs'[p]), 1)
    ensures RunsOk(prs', [p] + g.all, g.big, g.out[PageAddr(prs'[p]) := 1])
  {
    var (page, all', out') := (PageAddr(prs'[p]), [p] + g.all, g.out[PageAddr(prs'[p]) := 1]);
    FreshIsNew(g.out, page, 1);
    AddRun(g.out, page, 1);
    forall q | q in all'
      ensures PageRun(prs', g.big, out', q)
    {
      assert q != p ==> PageRun(h.prs, g.big, g.out, q);
    }
    forall a | a in out' && a !in g.big
      ensures PageOf(prs', all', a)
    {
      if a != page {
        assert PageOf(h.prs, g.all, a);
        var q :| q in g.all && q < |h.prs| && PageAddr(h.prs[q]) == a;
        assert q in all' && PageAddr(prs'[q]) == a;
      } else {
        assert p in all';
      }
    }
  }

  // ---- Returning a page ------------------------------------------------

  lemma InRemoveAt(xs: seq<nat>, k: nat, q: nat)
    requires Distinct(xs) && k < |xs|
    ensures q in RemoveAt(xs, k) <==> q in xs && q != xs[k]
  {
    var ys := RemoveAt(xs, k);
    if q in xs && q != xs[k] {
      var i :| 0 <= i < |xs| && xs[i] == q;
      assert ys[if i < k then i else i - 1] == q;
    }
  }

  /** Only next pointers differ. */
  ghost predicate SameRecords(prs: seq<PageRef>, prs': seq<PageRef>) {
    |prs'| == |prs| && forall i {:trigger prs'[i]} | 0 <= i < |prs| ::
      prs'[i].pab == prs[i].pab && prs'[i].offset == prs[i].offset && prs'[i].nfree == prs[i].nfree
  }

  lemma DropLists(h: HeapState, g: Spec, p: nat, k: nat, m: nat, prs': seq<PageRef>, base: int, sbase: int,
                  ws': seq<nat>)
    requires ListsOk(h.prs, h.inuse, h.sizebases, h.allbase, g.all, g.same) && k < |g.all| && g.all[k] == p
    requires p < NPAGEREFS
    requires SameRecords(h.prs, prs') && BlockType(h.prs[p]) < NSIZES
    requires var t := BlockType(h.prs[p]);
             && m < |g.same[t]| && g.same[t][m] == p && Chain(prs', false, sbase, RemoveAt(g.same[t], m))
             && forall i | 0 <= i < |prs'| :: prs'[i].nextSame == h.prs[i].nextSame || BlockType(h.prs[i]) == t
    requires Chain(prs', true, base, RemoveAt(g.all, k))
    requires WordsOk(ws') && forall q: nat | q < NPAGEREFS :: InUse(ws', q) == (q != p && InUse(h.inuse, q))
    ensures var t := BlockType(h.prs[p]);
            ListsOk(prs', ws', h.sizebases[t := sbase], base, RemoveAt(g.all, k), g.same[t := RemoveAt(g.same[t], m)])
  {
    var t := BlockType(h.prs[p]);
    var (all', same', bases') := (RemoveAt(g.all, k), g.same[t := RemoveAt(g.same[t], m)], h.sizebases[t := sbase]);
    forall u: nat | u < NSIZES
      ensures ClassOk(prs', bases', all', same', u)
    {
      assert ClassOk(h.prs, h.sizebases, g.all, g.same, u);
      forall q: nat
        ensures q in same'[u] <==> q in all' && q < |prs'| && BlockType(prs'[q]) == u
      {
        InRemoveAt(g.all, k, q);
        assert q in g.same[u] <==> q in g.all && q < |h.prs| && BlockType(h.prs[q]) == u;
        if u == t {
          InRemoveAt(g.same[t], m, q);
        }
      }
      if u != t {
        forall i | 0 <= i < |g.same[u]| && g.same[u][i] < |h.prs|
          ensures Next(prs'[g.same[u][i]], false) == Next(h.prs[g.same[u][i]], false)
        {
          assert g.same[u][i] in g.same[u];
        }
        ChainFrame(h.prs, prs', false, h.sizebases[u], g.same[u]);
      }
    }
    forall q: nat | q < NPAGEREFS
      ensures InUse(ws', q) <==> q in all'
    {
      assert InUse(h.inuse, q) <==> q in g.all;
      InRemoveAt(g.all, k, q);
    }
  }

  /** Nothing on a wholly free page is live. */
  lemma WhollyFree(h: HeapState, g: Spec, p: nat, a: nat)
    requires Core(h, g) && p in g.all && p < |h.prs| && p in g.free && |g.free[p]| == NBlocks(BlockType(h.prs[p]))
    requires a in g.live
    ensures g.live[a].p != p
  {
    assert PageIn(h.prs, g.free, h.mem, g.live, p);
    var (pr, fl) := (h.prs[p], g.free[p]);
    Pigeonhole(fl, NBlocks(BlockType(pr)));
    assert LiveOk(h.prs, g.all, g.live, a);
    var l := g.live[a];
    assert l.p == p ==> l.j in fl && BlockState(PageAddr(pr), BlockType(pr), fl, g.live, l.j);
  }

  lemma DropPages(h: HeapState, g: Spec, p: nat, k: nat, prs': seq<PageRef>)
    requires Core(h, g) && k < |g.all| && g.all[k] == p && p < |h.prs| && p in g.free
    requires |g.free[p]| == NBlocks(BlockType(h.prs[p])) && SameRecords(h.prs, prs')
    ensures PagesOk(prs', h.mem, RemoveAt(g.all, k), g.free - {p}, g.live)
  {
    var (all', free') := (RemoveAt(g.all, k), g.free - {p});
    forall q | q in all'
      ensures PageIn(prs', free', h.mem, g.live, q)
    {
      InRemoveAt(g.all, k, q);
      assert PageIn(h.prs, g.free, h.mem, g.live, q);
    }
    forall q, r | q in all' && r in all' && q != r
      ensures PagesDiffer(prs', q, r)
    {
      InRemoveAt(g.all, k, q);
      InRemoveAt(g.all, k, r);
      assert PagesDiffer(h.prs, q, r);
    }
    forall a | a in g.live
      ensures LiveOk(prs', all', g.live, a)
    {
      assert LiveOk(h.prs, g.all, g.live, a);
      WhollyFree(h, g, p, a);
      InRemoveAt(g.all, k, g.live[a].p);
    }
  }

  lemma DropRuns(h: HeapState, g: Spec, p: nat, k: nat, prs': seq<PageRef>)
    requires Core(h, g) && k < |g.all| && g.all[k] == p && p < |h.prs| && SameRecords(h.prs, prs')
    ensures RunsOk(prs', RemoveAt(g.all, k), g.big, g.out - {PageAddr(h.prs[p])})
  {
    var (all', page) := (RemoveAt(g.all, k), PageAddr(h.prs[p]));
    var out' := g.out - {page};
    assert PageRun(h.prs, g.big, g.out, p);
    forall a | a in out'
      ensures Run(out', a)
    {
      assert Run(g.out, a);
    }
    forall a, b | a in out' && b in out'
      ensures Apart(out', a, b)
    {
      assert Apart(g.out, a, b);
    }
    forall q | q in all'
      ensures PageRun(prs', g.big, out', q)
    {
      InRemoveAt(g.all, k, q);
      assert PageRun(h.prs, g.big, g.out, q) && PagesDiffer(h.prs, q, p);
    }
    forall a | a in out' && a !in g.big
      ensures PageOf(prs', all', a)
    {
      assert PageOf(h.prs, g.all, a);
      var q :| q in g.all && q < |h.prs| && PageAddr(h.prs[q]) == a;
      InRemoveAt(g.all, k, q);
      assert PageAddr(prs'[q]) == a;
    }
  }

  // ---- The allocator ---------------------------------------------------

  predicate IsClass(sz: nat, t: nat) {
    t < NSIZES && sz <= Size(t) && (t > 0 ==> Size(t - 1) < sz)
  }

  /** blocktype: the smallest class that holds sz bytes. */
  method BlockTypeOf(sz: nat) returns (t: nat)
    requires sz <= LARGEST_SUBPAGE_SIZE
    ensures IsClass(sz, t)
  {
    for i := 0 to NSIZES
      invariant i > 0 ==> Size(i - 1) < sz
    {
      if sz <= Size(i) {
        return i;
      }
    }
    assert false;
  }

  /** fill_deadbeef. */
  method FillDeadbeef(mem: map<nat, nat>, a: nat, len: nat) returns (mem': map<nat, nat>)
    ensures OnlyIn(mem, mem', a, len)
    ensures forall i: nat | i < len / 4 :: Load(mem', a + 4 * i) == DEADBEEF
  {
    mem' := mem;
    for i := 0 to len / 4
      invariant OnlyIn(mem, mem', a, len)
      invariant forall k: nat | k < i :: Load(mem', a + 4 * k) == DEADBEEF
    {
      StoreIn(mem, mem', a, len, a + 4 * i, DEADBEEF);
      mem' := mem'[a + 4 * i := DEADBEEF];
    }
  }

  /** The loop that strings a fresh page's blocks into its free list. */
  method StringBlocks(mem: map<nat, nat>, page: nat, t: nat) returns (mem': map<nat, nat>)
    requires page > 0
    ensures OnlyIn(mem, mem', page, PAGE_SIZE) && Strung(mem', page, t, NBlocks(t))
  {
    BlkInPage(page, t, 0);
    mem' := mem[page := 0];
    for i := 1 to NBlocks(t)
      invariant OnlyIn(mem, mem', page, PAGE_SIZE) && Strung(mem', page, t, i)
    {
      BlkInPage(page, t, i);
      BlkApart(page, t, i - 1, i);
      assert Blk(page, t, i) != Blk(page, t, i - 1);
      ghost var before := mem';
      StoreIn(mem, mem', page, PAGE_SIZE, Blk(page, t, i), Blk(page, t, i - 1));
      mem' := mem'[Blk(page, t, i) := Blk(page, t, i - 1)];
      forall j: nat | j < i + 1
        ensures StrungAt(mem', page, t, j)
      {
        if j < i {
          assert StrungAt(before, page, t, j);
          BlkApart(page, t, j, i);
        }
      }
    }
  }

  /** remove_lists: off the list of its size, then off the list of all pages. */
  method RemoveLists(h: HeapState, p: nat, t: nat, ghost g: Spec, ghost k: nat, ghost m: nat)
    returns (prs': seq<PageRef>, sbase: int, base: int)
    requires ListsOk(h.prs, h.inuse, h.sizebases, h.allbase, g.all, g.same) && t < NSIZES
    requires k < |g.all| && g.all[k] == p && m < |g.same[t]| && g.same[t][m] == p
    ensures SameRecords(h.prs, prs')
    ensures Chain(prs', false, sbase, RemoveAt(g.same[t], m)) && Chain(prs', true, base, RemoveAt(g.all, k))
    ensures forall i | 0 <= i < |prs'| :: prs'[i].nextSame == h.prs[i].nextSame || BlockType(h.prs[i]) == t
  {
    assert ClassOk(h.prs, h.sizebases, g.all, g.same, t);
    assert m > 0 ==> g.same[t][m - 1] in g.same[t];
    var prs1;
    prs1, sbase := Unlink(h.prs, false, h.sizebases[t], p, g.same[t], m);
    ChainFrame(h.prs, prs1, true, h.allbase, g.all);
    prs', base := Unlink(prs1, true, h.allbase, p, g.all, k);
    ChainFrame(prs1, prs', false, sbase, RemoveAt(g.same[t], m));
  }

  class Heap {
    var h: HeapState
    ghost var g: Spec

    ghost predicate Valid()
      reads this
    {
      Good(h, g)
    }

    /** The state at boot: all globals zero. */
    constructor (mem: map<nat, nat>)
      ensures Valid() && h.mem == mem && g == Spec([], [[], [], [], [], [], [], [], []], map[], map[], map[], map[])
    {
      var empty := PageRef(NULL, NULL, 0, 0, 0);
      h := HeapState(mem, seq(NPAGEREFS, i => empty), [0, 0, 0, 0, 0, 0, 0, 0],
                     [NULL, NULL, NULL, NULL, NULL, NULL, NULL, NULL], NULL);
      g := Spec([], [[], [], [], [], [], [], [], []], map[], map[], map[], map[]);
      new;
      forall k: nat | k < NPAGEREFS
        ensures !InUse(h.inuse, k)
      {
        ZeroBits(k % 32);
      }
    }

    /** doalloc: the first free block of the page. */
    method DoAlloc(p: nat, sz: nat) returns (a: nat)
      requires Core(h, g) && p in g.all && p < |h.prs| && p in g.free && g.free[p] != []
      requires sz <= Size(BlockType(h.prs[p]))
      requires forall q {:trigger NotAllFree(h.prs, g.free, q)} | q in g.all && q != p :: NotAllFree(h.prs, g.free, q)
      modifies this
      ensures Valid() && a > 0 && a !in old(g).live
      ensures h == old(h).(prs := h.prs)
      ensures g == old(g).(free := old(g).free[p := old(g).free[p][1..]],
                           live := old(g).live[a := Live(p, old(g).free[p][0], sz)])
    {
      ghost var fl := g.free[p];
      assert PageIn(h.prs, g.free, h.mem, g.live, p);
      var pr := h.prs[p];
      var page := PageAddr(pr);
      ghost var t := BlockType(pr);
      BlkInPage(page, t, fl[0]);
      assert pr.offset < PAGE_SIZE;
      a := page + pr.offset;
      assert FreeLink(h.mem, page, t, fl, 0);
      var next := Load(h.mem, a);
      Take(h, g, p, sz);
      Pigeonhole(fl, NBlocks(t));
      var pr' := pr.(nfree := pr.nfree - 1);
      if next != 0 {
        assert pr'.nfree > 0;
        BlkInPage(page, t, fl[1]);
        assert next - page < PAGE_SIZE;
        pr' := pr'.(offset := next - page);
      } else {
        BlkInPage(page, t, fl[if |fl| > 1 then 1 else 0]);
        assert pr'.nfree == 0;
        pr' := pr'.(offset := INVALID_OFFSET);
      }
      assert pr' == Popped(pr, fl);
      h := h.(prs := h.prs[p := pr']);
      g := g.(free := g.free[p := fl[1..]], live := g.live[a := Live(p, fl[0], sz)]);
      forall q | q in g.all
        ensures NotAllFree(h.prs, g.free, q)
      {
        assert q != p ==> NotAllFree(old(h).prs, old(g).free, q);
      }
    }

    /** The part of subpage_kmalloc that makes a new page; page is what alloc_kpages would return. */
    method NewPage(t: nat, page: nat) returns (p: int)
      requires Valid() && t < NSIZES && (page == 0 || FreshRun(g.out, page, 1))
      modifies this
      ensures p == NULL <==> page == 0 || forall k: nat | k < NPAGEREFS :: k in old(g).all
      ensures p == NULL ==> Valid() && g == old(g) && h == old(h).(inuse := h.inuse)
      ensures p != NULL ==>
                && 0 <= p < |h.prs| && p !in old(g).all && Core(h, g) && OnlyIn(old(h).mem, h.mem, page, PAGE_SIZE)
                && g == old(g).(all := [p] + old(g).all, same := g.same,
                                free := old(g).free[p := Down(NBlocks(t))], out := old(g).out[page := 1])
                && BlockType(h.prs[p]) == t
                && forall q {:trigger NotAllFree(h.prs, g.free, q)} | q in g.all && q != p ::
                     NotAllFree(h.prs, g.free, q)
    {
      var ws;
      p, ws := AllocPageRef(h.inuse);
      if p == NULL {
        forall k: nat | k < NPAGEREFS
          ensures k in g.all
        {
          assert InUse(h.inuse, k);
        }
        return;
      }
      assert p !in g.all;
      if page == 0 {
        ws := FreePageRef(ws, p);
        SameInUse(h, g, ws);
        h := h.(inuse := ws);
        p := NULL;
        return;
      }
      var mem := StringBlocks(h.mem, page, t);
      var n := NBlocks(t);
      BlkInPage(page, t, n - 1);
      var pr := PageRef(h.sizebases[t], h.allbase, MkPab(page, t), Blk(page, t, n - 1) - page, n);
      Unpack(page, t, pr);
      ghost var prs' := h.prs[p := pr];
      forall x: nat | x in g.live
        ensures !(page <= x < page + PAGE_SIZE)
      {
        LiveNotFresh(h, g, page, 1, x);
      }
      NewPageOk(pr, page, t, mem, g.live);
      AddLists(h, g, p, t, prs', ws);
      AddPages(h, g, p, prs', Down(n), mem);
      AddRuns(h, g, p, prs');
      h := HeapState(mem, h.prs[p := pr], ws, h.sizebases[t := p], p);
      g := g.(all := [p] + g.all, same := g.same[t := [p] + g.same[t]], free := g.free[p := Down(n)],
              out := g.out[page := 1]);
      forall q | q in g.all && q != p
        ensures NotAllFree(h.prs, g.free, q)
      {
        assert NotAllFree(old(h).prs, old(g).free, q);
      }
    }

    /** subpage_kmalloc; page is what alloc_kpages would return, and took says whether it was asked and gave it. */
    method SubpageKmalloc(sz: nat, page: nat) returns (a: nat, took: bool, ghost t: nat)
      requires Valid() && sz <= LARGEST_SUBPAGE_SIZE && (page == 0 || FreshRun(g.out, page, 1))
      modifies this
      ensures Valid() && g.big == old(g).big
      ensures a == 0 ==> g == old(g) && h.mem == old(h).mem
      ensures IsClass(sz, t)
      ensures a == 0 <==> NoFree(old(g), t) && (page == 0 || forall k: nat | k < NPAGEREFS :: k in old(g).all)
      ensures a != 0 ==> a !in old(g).live && a in g.live && g.live == old(g).live[a := g.live[a]] && g.live[a].sz == sz
      ensures took ==>
                a != 0 && page != 0 && g.out == old(g).out[page := 1] && OnlyIn(old(h).mem, h.mem, page, PAGE_SIZE)
      ensures !took ==> g.out == old(g).out && h.mem == old(h).mem
    {
      var blktype := BlockTypeOf(sz);
      t, took := blktype, false;
      assert ClassOk(h.prs, h.sizebases, g.all, g.same, t);
      ghost var xs := g.same[t];
      var cur := h.sizebases[blktype];
      ghost var m := 0;
      while cur != NULL
        invariant 0 <= m <= |xs| && cur == At(xs, m) && h == old(h) && g == old(g)
        invariant forall i | 0 <= i < m :: xs[i] in g.free && g.free[xs[i]] == []
        decreases |xs| - m
      {
        assert ChainAt(h.prs, false, xs, m) && xs[m] in g.same[t];
        assert PageIn(h.prs, g.free, h.mem, g.live, cur);
        assert BlockType(h.prs[cur]) == blktype;
        if h.prs[cur].nfree > 0 {
          a := DoAlloc(cur, sz);
          return;
        }
        cur, m := h.prs[cur].nextSame, m + 1;
      }
      assert NoFree(g, t);
      var p := NewPage(blktype, page);
      if p == NULL {
        a := 0;
        return;
      }
      took := true;
      a := DoAlloc(p, sz);
    }

    /** The part of subpage_kfree that wipes a block and puts it at the head of its page's free list. */
    method FreeBlock(ptr: nat, p: nat)
      requires Core(h, g) && ptr in g.live && p == g.live[ptr].p && p < |h.prs|
      modifies this
      ensures Core(h, g) && OnlyIn(old(h).mem, h.mem, ptr, BlockSize(old(h), old(g), ptr))
      ensures forall i: nat | 0 < i < BlockSize(old(h), old(g), ptr) / 4 :: Load(h.mem, ptr + 4 * i) == DEADBEEF
      ensures p in g.free && p in old(g).free && |h.prs| == |old(h).prs| && h.prs[p].pab == old(h).prs[p].pab
      ensures h == old(h).(prs := old(h).prs[p := h.prs[p]], mem := h.mem)
      ensures g == old(g).(free := old(g).free[p := [old(g).live[ptr].j] + old(g).free[p]], live := old(g).live - {ptr})
    {
      LivePage(h, g, ptr);
      var pr := h.prs[p];
      var (page, t) := (PageAddr(pr), BlockType(pr));
      ghost var fl, j := g.free[p], g.live[ptr].j;
      var offset := ptr - page;
      BlkAt(page, t, j);
      assert offset < PAGE_SIZE && offset % Size(t) == 0;
      var mem := FillDeadbeef(h.mem, ptr, Size(t));
      var next := if pr.offset == INVALID_OFFSET then 0 else page + pr.offset;
      assert next == (if fl == [] then 0 else Blk(page, t, fl[0])) by {
        if fl != [] {
          BlkInPage(page, t, fl[0]);
        }
      }
      StoreIn(h.mem, mem, ptr, Size(t), ptr, next);
      mem := mem[ptr := next];
      Give(h, g, ptr, mem);
      var pr' := pr.(offset := offset, nfree := pr.nfree + 1);
      assert pr' == Pushed(pr, fl, j);
      h := h.(prs := h.prs[p := pr'], mem := mem);
      g := g.(free := g.free[p := [j] + fl], live := g.live - {ptr});
    }

    /** The end of subpage_kfree for a wholly free page: off both lists, page and descriptor returned. */
    method ReturnPage(p: nat)
      requires Core(h, g) && p in g.all && p < |h.prs| && p in g.free && |g.free[p]| == NBlocks(BlockType(h.prs[p]))
      requires forall q {:trigger NotAllFree(h.prs, g.free, q)} | q in g.all && q != p :: NotAllFree(h.prs, g.free, q)
      modifies this
      ensures Valid() && h.mem == old(h).mem && g.live == old(g).live && g.big == old(g).big
      ensures g.out == old(g).out - {PageAddr(old(h).prs[p])}
    {
      ghost var k :| 0 <= k < |g.all| && g.all[k] == p;
      assert PageIn(h.prs, g.free, h.mem, g.live, p) && InUse(h.inuse, p);
      var t := BlockType(h.prs[p]);
      assert ClassOk(h.prs, h.sizebases, g.all, g.same, t) && p in g.same[t];
      ghost var m :| 0 <= m < |g.same[t]| && g.same[t][m] == p;
      var prs', sbase, base := RemoveLists(h, p, t, g, k, m);
      var ws := FreePageRef(h.inuse, p);
      DropLists(h, g, p, k, m, prs', base, sbase, ws);
      DropPages(h, g, p, k, prs');
      DropRuns(h, g, p, k, prs');
      h := HeapState(h.mem, prs', ws, h.sizebases[t := sbase], base);
      g := g.(all := RemoveAt(g.all, k), same := g.same[t := RemoveAt(g.same[t], m)],
              free := g.free - {p}, out := g.out - {PageAddr(old(h).prs[p])});
      forall q | q in g.all
        ensures NotAllFree(h.prs, g.free, q)
      {
        InRemoveAt(old(g).all, k, q);
        assert NotAllFree(old(h).prs, old(g).free, q);
      }
    }

    /** The search of subpage_kfree: the descriptor whose page holds ptr, or NULL. */
    method FindPage(ptr: nat) returns (p: int)
      requires Core(h, g) && (ptr in g.live || ptr in g.big)
      ensures ptr in g.live ==> ptr !in g.big && p == g.live[ptr].p
      ensures ptr in g.big ==> p == NULL
    {
      p := h.allbase;
      ghost var m := 0;
      while p != NULL
        invariant 0 <= m <= |g.all| && p == At(g.all, m)
        invariant ptr in g.live ==> g.live[ptr].p !in g.all[..m]
        decreases |g.all| - m
      {
        assert ChainAt(h.prs, true, g.all, m) && PageIn(h.prs, g.free, h.mem, g.live, p);
        var page := PageAddr(h.prs[p]);
        assert BlockType(h.prs[p]) < NSIZES;
        PtrOnPage(h, g, ptr, p);
        if page <= ptr < page + PAGE_SIZE {
          break;
        }
        p, m := h.prs[p].nextAll, m + 1;
      }
      if ptr in g.live {
        LivePage(h, g, ptr);
        LiveFits(h, g, ptr);
      }
    }

    /** subpage_kfree: whether ptr was a small block; if so it is free again. */
    method SubpageKfree(ptr: nat) returns (found: bool)
      requires Valid() && (ptr in g.live || ptr in g.big)
      modifies this
      ensures Valid() && g.live == old(g).live - {ptr} && g.big == old(g).big
      ensures found <==> ptr in old(g).live
      ensures !found ==> h == old(h) && g == old(g)
      ensures found ==>
                old(g).live[ptr].p < |old(h).prs| && OnlyIn(old(h).mem, h.mem, ptr, BlockSize(old(h), old(g), ptr))
      ensures found ==> g.out == old(g).out || g.out == old(g).out - {PageAddr(old(h).prs[old(g).live[ptr].p])}
    {
      var p := FindPage(ptr);
      if p == NULL {
        assert g.live - {ptr} == g.live;
        return false;
      }
      LivePage(h, g, ptr);
      FreeBlock(ptr, p);
      assert PageIn(h.prs, g.free, h.mem, g.live, p);
      Pigeonhole(g.free[p], NBlocks(BlockType(h.prs[p])));
      assert h.prs[p].nfree <= NBlocks(BlockType(h.prs[p]));
      forall q | q in g.all && q != p
        ensures NotAllFree(h.prs, g.free, q)
      {
        assert NotAllFree(old(h).prs, old(g).free, q);
      }
      if h.prs[p].nfree == NBlocks(BlockType(h.prs[p])) {
        ReturnPage(p);
      }
      return true;
    }

    /**
     kmalloc; page is what alloc_kpages would return for the number of pages
     asked of it, and took as above. That number is 0 for the sizes whose
     round-up wraps around: then the address comes back and nothing is reserved.
     */
    method Kmalloc(sz: nat, page: nat) returns (a: nat, took: bool)
      requires Valid() && sz < 0x1_0000_0000 && (page == 0 || PagesFor(sz) == 0 || FreshRun(g.out, page, PagesFor(sz)))
      modifies this
      ensures Valid()
      ensures a == 0 ==> g == old(g) && h.mem == old(h).mem
      ensures g.out == if took then old(g).out[page := PagesFor(sz)] else old(g).out
      ensures took ==> page != 0
      ensures sz >= LARGEST_SUBPAGE_SIZE ==> a == page
      ensures PagesFor(sz) == 0 ==> g == old(g) && h == old(h)
      ensures a != 0 && PagesFor(sz) > 0 ==> a !in old(g).live && a !in old(g).big
      ensures a != 0 && sz < LARGEST_SUBPAGE_SIZE ==>
                a in g.live && g.live[a].sz == sz && g.live == old(g).live[a := g.live[a]] && g.big == old(g).big
      ensures a != 0 && sz >= LARGEST_SUBPAGE_SIZE && PagesFor(sz) > 0 ==>
                sz <= PAGE_SIZE * PagesFor(sz) && g.live == old(g).live && g.big == old(g).big[a := sz]
      ensures forall b, x | Owns(old(h), old(g), b, x) :: Load(h.mem, x) == Load(old(h).mem, x)
    {
      if sz >= LARGEST_SUBPAGE_SIZE {
        var npages := Wrap32(sz + PAGE_SIZE - 1) / PAGE_SIZE;
        PagesCover(sz);
        if page == 0 {
          return 0, false;
        }
        if npages > 0 {
          AddBig(h, g, page, npages, sz);
          g := g.(big := g.big[page := sz], out := g.out[page := npages]);
        }
        return page, npages > 0;
      }
      ghost var t;
      a, took, t := SubpageKmalloc(sz, page);
      if a != 0 {
        LiveNotBig(h, g, a);
      }
      forall b, x | Owns(old(h), old(g), b, x)
        ensures Load(h.mem, x) == Load(old(h).mem, x)
      {
        if page != 0 {
          OwnsClear(old(h), old(g), b, x, page, 1);
        }
      }
    }

    /** kfree: whatever pointer is live goes, and no other block's bytes change. */
    method Kfree(ptr: nat)
      requires Valid() && (ptr == 0 || ptr in g.live || ptr in g.big)
      modifies this
      ensures Valid() && g.live == old(g).live - {ptr} && g.big == old(g).big - {ptr}
      ensures forall b, x | b != ptr && Owns(old(h), old(g), b, x) :: Load(h.mem, x) == Load(old(h).mem, x)
      ensures forall a | a in g.out :: a in old(g).out && g.out[a] == old(g).out[a]
    {
      if ptr == 0 {
        NotZero(h, g);
        assert g.live - {ptr} == g.live && g.big - {ptr} == g.big;
        return;
      }
      var found := SubpageKfree(ptr);
      if !found {
        assert ptr in g.big && ptr in g.out && Run(g.out, ptr);
        assert ptr % PAGE_SIZE == 0;
        DropBig(h, g, ptr);
        g := g.(big := g.big - {ptr}, out := g.out - {ptr});
      } else {
        LiveNotBig(old(h), old(g), ptr);
        assert g.big - {ptr} == g.big;
        forall b, x | b != ptr && Owns(old(h), old(g), b, x)
          ensures Load(h.mem, x) == Load(old(h).mem, x)
        {
          OwnsApart(old(h), old(g), b, x, ptr);
        }
      }
    }

    /** The holder of a block writes a word anywhere in it. */
    method Store(b: nat, x: nat, w: nat)
      requires Valid() && Owns(h, g, b, x)
      modifies this
      ensures Valid() && g == old(g) && h == old(h).(mem := old(h).mem[x := w])
    {
      StoreKeeps(h, g, b, x, w);
      h := h.(mem := h.mem[x := w]);
    }
  }

  /** The number of pages kmalloc asks for, rounded up in 32 bits; a small block may need one. */
  function PagesFor(sz: nat): nat {
    if sz >= LARGEST_SUBPAGE_SIZE then Wrap32(sz + PAGE_SIZE - 1) / PAGE_SIZE else 1
  }

  /** The pages hold the block exactly when the round-up does not wrap around, and there are none when it does. */
  lemma PagesCover(sz: nat)
    requires sz < 0x1_0000_0000
    ensures sz <= PAGE_SIZE * PagesFor(sz) <==> sz + PAGE_SIZE - 1 < 0x1_0000_0000
    ensures PagesFor(sz) == 0 <==> sz + PAGE_SIZE - 1 >= 0x1_0000_0000
  {}

  /** Address x belongs to the block, small or large, that starts at b. */
  ghost predicate Owns(h: HeapState, g: Spec, b: nat, x: nat) {
    || (b in g.live && g.live[b].p < |h.prs| && b <= x < b + BlockSize(h, g, b))
    || (b in g.big && b in g.out && b <= x < b + PAGE_SIZE * g.out[b])
  }

  lemma LiveNotBig(h: HeapState, g: Spec, a: nat)
    requires Core(h, g) && a in g.live
    ensures a > 0 && a !in g.big
  {
    LiveFits(h, g, a);
    assert a in g.big ==> a in g.out && Run(g.out, a);
  }

  lemma NotZero(h: HeapState, g: Spec)
    requires Core(h, g)
    ensures 0 !in g.live && 0 !in g.big
  {
    if 0 in g.live {
      LiveNotBig(h, g, 0);
    }
    assert 0 in g.big ==> 0 in g.out && Run(g.out, 0);
  }

  lemma OwnsClear(h: HeapState, g: Spec, b: nat, x: nat, page: nat, n: nat)
    requires Core(h, g) && Owns(h, g, b, x) && FreshRun(g.out, page, n)
    ensures !(page <= x < page + PAGE_SIZE * n)
  {
    if b in g.live && g.live[b].p < |h.prs| && b <= x < b + BlockSize(h, g, b) {
      LivePage(h, g, b);
      assert RunClear(g.out, page, n, PageAddr(h.prs[g.live[b].p]));
    } else {
      assert RunClear(g.out, page, n, b);
    }
  }

  /** Different blocks own different addresses. */
  lemma OwnsApart(h: HeapState, g: Spec, b: nat, x: nat, a: nat)
    requires Core(h, g) && Owns(h, g, b, x) && a in g.live && b != a
    ensures g.live[a].p < |h.prs| && !(a <= x < a + BlockSize(h, g, a))
  {
    LiveFits(h, g, a);
    if b in g.live {
      LiveFits(h, g, b);
      LiveDisjoint(h, g, a, b);
    }
  }

  lemma AddBig(h: HeapState, g: Spec, a: nat, n: nat, sz: nat)
    requires Good(h, g) && FreshRun(g.out, a, n) && sz <= PAGE_SIZE * n
    ensures a !in g.live && a !in g.big && Good(h, g.(big := g.big[a := sz], out := g.out[a := n]))
  {
    if a in g.live {
      LiveNotFresh(h, g, a, n, a);
    }
    FreshIsNew(g.out, a, n);
    AddRun(g.out, a, n);
    var (big', out') := (g.big[a := sz], g.out[a := n]);
    forall p | p in g.all
      ensures PageRun(h.prs, big', out', p)
    {
      assert PageRun(h.prs, g.big, g.out, p);
    }
    forall b | b in out' && b !in big'
      ensures PageOf(h.prs, g.all, b)
    {
      assert b in g.out && b !in g.big;
    }
  }

  lemma DropBig(h: HeapState, g: Spec, a: nat)
    requires Good(h, g) && a in g.big
    ensures Good(h, g.(big := g.big - {a}, out := g.out - {a}))
  {
    var (big', out') := (g.big - {a}, g.out - {a});
    forall b | b in out'
      ensures Run(out', b)
    {
      assert Run(g.out, b);
    }
    forall b, c | b in out' && c in out'
      ensures Apart(out', b, c)
    {
      assert Apart(g.out, b, c);
    }
    forall p | p in g.all
      ensures PageRun(h.prs, big', out', p)
    {
      assert PageRun(h.prs, g.big, g.out, p);
    }
    forall b | b in out' && b !in big'
      ensures PageOf(h.prs, g.all, b)
    {
      assert b in g.out && b !in g.big;
    }
  }

  /** A free block of any page is not part of a block in use. */
  lemma FreeNotOwned(h: HeapState, g: Spec, b: nat, x: nat, p: nat, k: nat)
    requires Core(h, g) && Owns(h, g, b, x) && p in g.all && p < |h.prs| && p in g.free && k < |g.free[p]|
    ensures x != Blk(PageAddr(h.prs[p]), BlockType(h.prs[p]), g.free[p][k])
  {
    var (pr, fl) := (h.prs[p], g.free[p]);
    var (page, t) := (PageAddr(pr), BlockType(pr));
    assert PageIn(h.prs, g.free, h.mem, g.live, p) && PageRun(h.prs, g.big, g.out, p)
           && BlockState(page, t, fl, g.live, fl[k]);
    BlkInPage(page, t, fl[k]);
    if b in g.live && g.live[b].p < |h.prs| && b <= x < b + BlockSize(h, g, b) {
      LivePage(h, g, b);
      var l := g.live[b];
      if l.p != p {
        OtherPage(h, g, l.p, p);
      } else if l.j < fl[k] {
        BlkApart(page, t, l.j, fl[k]);
      } else if fl[k] < l.j {
        BlkApart(page, t, fl[k], l.j);
      }
    } else {
      PagesApart(h, g, page, b);
    }
  }

  lemma StoreKeeps(h: HeapState, g: Spec, b: nat, x: nat, w: nat)
    requires Good(h, g) && Owns(h, g, b, x)
    ensures Good(h.(mem := h.mem[x := w]), g)
  {
    var mem' := h.mem[x := w];
    forall p | p in g.all
      ensures PageIn(h.prs, g.free, mem', g.live, p)
    {
      assert PageIn(h.prs, g.free, h.mem, g.live, p);
      var (page, t, fl) := (PageAddr(h.prs[p]), BlockType(h.prs[p]), g.free[p]);
      forall k: nat | k < |fl|
        ensures FreeLink(mem', page, t, fl, k)
      {
        assert FreeLink(h.mem, page, t, fl, k);
        FreeNotOwned(h, g, b, x, p, k);
      }
    }
  }

  /** A live block lies on its own page only; a large block lies on none. */
  lemma PtrOnPage(h: HeapState, g: Spec, ptr: nat, p: nat)
    requires Core(h, g) && (ptr in g.live || ptr in g.big) && p in g.all && p < |h.prs|
    ensures ptr in g.live ==> (PageAddr(h.prs[p]) <= ptr < PageAddr(h.prs[p]) + PAGE_SIZE <==> g.live[ptr].p == p)
    ensures ptr in g.big ==> !(PageAddr(h.prs[p]) <= ptr < PageAddr(h.prs[p]) + PAGE_SIZE)
  {
    assert PageRun(h.prs, g.big, g.out, p);
    if ptr in g.live {
      LivePage(h, g, ptr);
      if g.live[ptr].p != p {
        OtherPage(h, g, g.live[ptr].p, p);
      }
    }
    if ptr in g.big {
      assert ptr in g.out && Run(g.out, ptr);
      PagesApart(h, g, PageAddr(h.prs[p]), ptr);
    }
  }

  /** No page of class t has a free block. */
  ghost predicate NoFree(g: Spec, t: nat) {
    t < |g.same| && forall p: nat | p in g.same[t] && p in g.free :: g.free[p] == []
  }

  lemma SameInUse(h: HeapState, g: Spec, ws: seq<nat>)
    requires Good(h, g) && WordsOk(ws) && forall k: nat | k < NPAGEREFS :: InUse(ws, k) == InUse(h.inuse, k)
    ensures Good(h.(inuse := ws), g)
  {
    forall k: nat | k < NPAGEREFS
      ensures InUse(ws, k) <==> k in g.all
    {
      assert InUse(h.inuse, k) <==> k in g.all;
    }
  }
}
