/**
 Whole runs of the kernel heap, and what its invariant means for the balance
 of blocks, pages and page descriptors.
 */
module KheapRun {
  import opened Basics
  import opened KheapData
  import opened Kheap
  import Dumbvm

  // ---- Balance ---------------------------------------------------------

  ghost function LiveOn(g: Spec, p: nat): set<nat> {
    set a | a in g.live && g.live[a].p == p
  }

  function Elements(xs: seq<nat>): set<nat> {
    set k | 0 <= k < |xs| :: xs[k]
  }

  lemma {:induction false} DistinctCount(xs: seq<nat>)
    requires Distinct(xs)
    ensures |Elements(xs)| == |xs|
  {
    if |xs| > 0 {
      var ys := xs[..|xs| - 1];
      DistinctCount(ys);
      assert Elements(xs) == Elements(ys) + {xs[|xs| - 1]};
    }
  }

  function Below(n: nat): (s: set<nat>)
    ensures |s| == n && forall j: nat :: j in s <==> j < n
  {
    if n == 0 then {} else Below(n - 1) + {n - 1}
  }

  function BlkImage(page: nat, t: nat, js: set<nat>): set<nat> {
    set j | j in js :: Blk(page, t, j)
  }

  lemma {:induction false} BlkImageCount(page: nat, t: nat, js: set<nat>)
    ensures |BlkImage(page, t, js)| == |js|
  {
    if js != {} {
      var j :| j in js;
      var rest := js - {j};
      BlkImageCount(page, t, rest);
      forall i | i in rest
        ensures Blk(page, t, i) != Blk(page, t, j)
      {
        BlkInjective(page, t, i, j);
      }
      assert BlkImage(page, t, js) == BlkImage(page, t, rest) + {Blk(page, t, j)};
      assert Blk(page, t, j) !in BlkImage(page, t, rest);
    }
  }

  /** The blocks of page p that are on no free list are its live blocks. */
  lemma LiveImage(h: HeapState, g: Spec, p: nat, used: set<nat>)
    requires Core(h, g) && p in g.all && p < |h.prs| && p in g.free
    requires forall j: nat :: j in used <==> j < NBlocks(BlockType(h.prs[p])) && j !in g.free[p]
    ensures LiveOn(g, p) == BlkImage(PageAddr(h.prs[p]), BlockType(h.prs[p]), used)
  {
    assert PageIn(h.prs, g.free, h.mem, g.live, p);
    var (pr, fl) := (h.prs[p], g.free[p]);
    var (page, t) := (PageAddr(pr), BlockType(pr));
    forall a | a in BlkImage(page, t, used)
      ensures a in LiveOn(g, p)
    {
      var j :| j in used && a == Blk(page, t, j);
      assert BlockState(page, t, fl, g.live, j) && j !in fl;
      LiveHere(h, g, p, j);
    }
    forall a | a in LiveOn(g, p)
      ensures a in BlkImage(page, t, used)
    {
      assert LiveOk(h.prs, g.all, g.live, a);
      var j := g.live[a].j;
      assert BlockState(page, t, fl, g.live, j);
      assert j in used;
    }
  }

  /** On every page, live blocks and free blocks add up to what the page holds. */
  lemma PageBalance(h: HeapState, g: Spec, p: nat)
    requires Core(h, g) && p in g.all && p < |h.prs|
    ensures |LiveOn(g, p)| + h.prs[p].nfree == PAGE_SIZE / Size(BlockType(h.prs[p]))
  {
    assert PageIn(h.prs, g.free, h.mem, g.live, p);
    var (page, t, fl) := (PageAddr(h.prs[p]), BlockType(h.prs[p]), g.free[p]);
    var (all, free) := (Below(NBlocks(t)), Elements(fl));
    var used := all - free;
    DistinctCount(fl);
    assert forall j | j in free :: j in all;
    assert all == used + free && used !! free;
    BlkImageCount(page, t, used);
    LiveImage(h, g, p, used);
    BlocksFillPage(t);
  }

  /** A live address on a page belongs to that page. */
  lemma LiveHere(h: HeapState, g: Spec, p: nat, j: nat)
    requires Core(h, g) && p in g.all && p < |h.prs| && j < NBlocks(BlockType(h.prs[p]))
    requires Blk(PageAddr(h.prs[p]), BlockType(h.prs[p]), j) in g.live
    ensures g.live[Blk(PageAddr(h.prs[p]), BlockType(h.prs[p]), j)].p == p
  {
    var a := Blk(PageAddr(h.prs[p]), BlockType(h.prs[p]), j);
    BlkInPage(PageAddr(h.prs[p]), BlockType(h.prs[p]), j);
    PtrOnPage(h, g, a, p);
  }

  /** A page is held only while something on it is live. */
  lemma PageInUse(h: HeapState, g: Spec, p: nat)
    requires Good(h, g) && p in g.all
    ensures LiveOn(g, p) != {} && g.live != map[]
  {
    assert NotAllFree(h.prs, g.free, p) && PageIn(h.prs, g.free, h.mem, g.live, p);
    PageBalance(h, g, p);
    BlocksFillPage(BlockType(h.prs[p]));
  }

  lemma NoElements(xs: seq<nat>)
    ensures (forall p: nat :: p !in xs) ==> xs == []
  {
    if |xs| > 0 {
      assert xs[0] in xs;
    }
  }

  /** With no small block live, every page of small blocks and every descriptor has been returned. */
  lemma AllReturned(h: HeapState, g: Spec)
    requires Good(h, g) && g.live == map[]
    ensures g.all == [] && h.allbase == NULL && g.out.Keys == g.big.Keys
    ensures forall t: nat | t < NSIZES :: h.sizebases[t] == NULL
    ensures forall k: nat | k < NPAGEREFS :: !InUse(h.inuse, k)
  {
    forall p: nat
      ensures p !in g.all
    {
      if p in g.all {
        PageInUse(h, g, p);
      }
    }
    NoElements(g.all);
    forall t: nat | t < NSIZES
      ensures h.sizebases[t] == NULL
    {
      assert ClassOk(h.prs, h.sizebases, g.all, g.same, t);
      NoElements(g.same[t]);
    }
    forall a | a in g.out
      ensures a in g.big
    {
      assert a !in g.big ==> PageOf(h.prs, g.all, a);
    }
  }

  // ---- The page source -------------------------------------------------

  const KSEG0 := 0x8000_0000

  predicate EndsBelow(out: map<nat, nat>, first: nat, a: nat)
    requires a in out
  {
    a + PAGE_SIZE * out[a] <= KSEG0 + first
  }

  /** The heap holds only memory that the bump allocator has passed. */
  ghost predicate AllBelow(out: map<nat, nat>, first: nat) {
    forall a {:trigger EndsBelow(out, first, a)} | a in out :: EndsBelow(out, first, a)
  }

  /** alloc_kpages over ram_stealmem keeps the promise the heap relies on, for any request that does not wrap around. */
  lemma BumpIsFresh(out: map<nat, nat>, first: nat, last: nat, n: nat)
    requires AllBelow(out, first) && 0 < first <= last < 0x1_0000_0000 && first % PAGE_SIZE == 0 && n > 0
    requires first + n * PAGE_SIZE < 0x1_0000_0000 && Dumbvm.StealMem(first, last, n).0 != 0
    ensures var (pa, first') := Dumbvm.StealMem(first, last, n);
            && FreshRun(out, KSEG0 + pa, n) && AllBelow(out[KSEG0 + pa := n], first') && first' % PAGE_SIZE == 0
            && first' <= last
  {
    var (pa, first') := Dumbvm.StealMem(first, last, n);
    Dumbvm.StealMemFits(first, last, n);
    Dumbvm.PagesAligned(first, n);
    var out' := out[KSEG0 + pa := n];
    forall a | a in out
      ensures RunClear(out, KSEG0 + pa, n, a)
    {
      assert EndsBelow(out, first, a);
    }
    forall a | a in out'
      ensures EndsBelow(out', first', a)
    {
      assert a in out ==> EndsBelow(out, first, a);
    }
  }

  /** Neither the round-up to pages nor the sum in ram_stealmem wraps around. */
  predicate NoWrap(first: nat, sz: nat) {
    sz + PAGE_SIZE - 1 < 0x1_0000_0000 && first + PagesFor(sz) * PAGE_SIZE < 0x1_0000_0000
  }

  /**
   A large block that is handed out lies below the new firstpaddr, clear of
   whatever is granted later, exactly when nothing wraps around.
   */
  lemma GrantHolds(first: nat, last: nat, sz: nat)
    requires 0 < first <= last < 0x1_0000_0000 && first % PAGE_SIZE == 0 && LARGEST_SUBPAGE_SIZE <= sz < 0x1_0000_0000
    requires Dumbvm.StealMem(first, last, PagesFor(sz)).0 != 0
    ensures NoWrap(first, sz) <==> first + sz <= Dumbvm.StealMem(first, last, PagesFor(sz)).1 <= last
  {
    PagesCover(sz);
    Dumbvm.StealMemFits(first, last, PagesFor(sz));
  }

  /**
   For instance: the largest sizes get an address with nothing behind it, and the
   next page asked for is at the same address.
   */
  method RoundUpWraps(mem: map<nat, nat>) returns (heap: Heap, a: nat, b: nat)
    ensures heap.Valid() && a == b != 0 && heap.g.big == map[b := 4096]
  {
    heap := new Heap(mem);
    var (first, last) := (8192, 0x10_0000);
    var r := Dumbvm.StealMem(first, last, PagesFor(0xffff_f001));
    var took;
    a, took := heap.Kmalloc(0xffff_f001, KSEG0 + r.0);
    r := Dumbvm.StealMem(r.1, last, PagesFor(4096));
    BumpIsFresh(heap.g.out, first, last, 1);
    b, took := heap.Kmalloc(4096, KSEG0 + r.0);
  }

  /**
   For instance: a request one byte smaller moves firstpaddr back a page, and the
   second page granted after it is the block itself.
   */
  method SumWraps(mem: map<nat, nat>) returns (heap: Heap, a: nat, page: nat)
    ensures heap.Valid() && heap.g.big == map[a := 0xffff_f000] && page == a
  {
    heap := new Heap(mem);
    var (first, last) := (8192, 0x10_0000);
    var r := Dumbvm.StealMem(first, last, PagesFor(0xffff_f000));
    assert r == (8192, 4096);
    var took;
    a, took := heap.Kmalloc(0xffff_f000, KSEG0 + r.0);
    r := Dumbvm.StealMem(r.1, last, 1);
    r := Dumbvm.StealMem(r.1, last, 1);
    page := KSEG0 + r.0;
  }

  // ---- Runs ------------------------------------------------------------

  /** What a program does with the heap: n names the n-th block it holds. */
  datatype Request = Malloc(sz: nat) | Free(n: nat) | Write(n: nat, off: nat, w: nat)

  /** A block held: its address and the size asked for. */
  datatype Handle = Handle(ptr: nat, sz: nat)

  /** The handles are the live blocks, each once and with its size. */
  ghost predicate Tracks(g: Spec, hs: seq<Handle>) {
    && (forall i, j | 0 <= i < j < |hs| :: hs[i].ptr != hs[j].ptr)
    && (forall i {:trigger hs[i]} | 0 <= i < |hs| ::
          (hs[i].ptr in g.live && g.live[hs[i].ptr].sz == hs[i].sz)
          || (hs[i].ptr in g.big && g.big[hs[i].ptr] == hs[i].sz))
    && (forall a {:trigger Tracked(hs, a)} | a in g.live || a in g.big :: Tracked(hs, a))
  }

  ghost predicate Tracked(hs: seq<Handle>, a: nat) {
    exists i :: 0 <= i < |hs| && hs[i].ptr == a
  }

  function Without(hs: seq<Handle>, n: nat): seq<Handle>
    requires n < |hs|
  {
    hs[..n] + hs[n + 1..]
  }

  lemma TrackNew(g: Spec, g': Spec, hs: seq<Handle>, a: nat, sz: nat)
    requires Tracks(g, hs) && a !in g.live && a !in g.big
    requires (a in g'.live && g'.live[a].sz == sz && g'.live == g.live[a := g'.live[a]] && g'.big == g.big)
             || (g'.live == g.live && g'.big == g.big[a := sz])
    ensures Tracks(g', hs + [Handle(a, sz)])
  {
    var hs' := hs + [Handle(a, sz)];
    forall b | b in g'.live || b in g'.big
      ensures Tracked(hs', b)
    {
      if b == a {
        assert hs'[|hs|].ptr == b;
      } else {
        assert Tracked(hs, b);
        var i :| 0 <= i < |hs| && hs[i].ptr == b;
        assert hs'[i].ptr == b;
      }
    }
    forall i | 0 <= i < |hs'|
      ensures (hs'[i].ptr in g'.live && g'.live[hs'[i].ptr].sz == hs'[i].sz)
              || (hs'[i].ptr in g'.big && g'.big[hs'[i].ptr] == hs'[i].sz)
    {
      assert i < |hs| ==> hs'[i] == hs[i];
    }
  }

  lemma TrackGone(g: Spec, g': Spec, hs: seq<Handle>, n: nat)
    requires Tracks(g, hs) && n < |hs| && g'.live == g.live - {hs[n].ptr} && g'.big == g.big - {hs[n].ptr}
    ensures Tracks(g', Without(hs, n))
  {
    var hs' := Without(hs, n);
    forall b | b in g'.live || b in g'.big
      ensures Tracked(hs', b)
    {
      assert Tracked(hs, b);
      var i :| 0 <= i < |hs| && hs[i].ptr == b;
      assert hs'[if i < n then i else i - 1].ptr == b;
    }
  }

  /** The holder may use every byte asked for. */
  lemma HandleOwns(h: HeapState, g: Spec, hs: seq<Handle>, n: nat, off: nat)
    requires Core(h, g) && Tracks(g, hs) && n < |hs| && off < hs[n].sz
    ensures Owns(h, g, hs[n].ptr, hs[n].ptr + off)
  {
    var a := hs[n].ptr;
    if a in g.live && g.live[a].sz == hs[n].sz {
      LiveFits(h, g, a);
    }
  }

  lemma BelowSubset(out: map<nat, nat>, out': map<nat, nat>, first: nat)
    requires AllBelow(out, first) && forall a | a in out' :: a in out && out'[a] == out[a]
    ensures AllBelow(out', first)
  {
    forall a | a in out'
      ensures EndsBelow(out', first, a)
    {
      assert EndsBelow(out, first, a);
    }
  }

  /** kmalloc over the bump allocator. */
  method MallocPages(heap: Heap, first: nat, last: nat, sz: nat) returns (a: nat, first': nat)
    requires heap.Valid() && AllBelow(heap.g.out, first) && 0 < first <= last <= 0x1fc0_0000 && first % PAGE_SIZE == 0
    requires sz < 0x1_0000_0000
    requires NoWrap(first, sz) || Dumbvm.StealMem(first, last, PagesFor(sz)).0 == 0
    modifies heap
    ensures heap.Valid() && AllBelow(heap.g.out, first') && first <= first' <= last && first' % PAGE_SIZE == 0
    ensures a == 0 ==> heap.g == old(heap.g)
    ensures a != 0 ==> a !in old(heap.g).live && a !in old(heap.g).big
    ensures a != 0 && sz < LARGEST_SUBPAGE_SIZE ==>
              a in heap.g.live && heap.g.live[a].sz == sz && heap.g.live == old(heap.g).live[a := heap.g.live[a]]
              && heap.g.big == old(heap.g).big
    ensures a != 0 && sz >= LARGEST_SUBPAGE_SIZE ==>
              heap.g.live == old(heap.g).live && heap.g.big == old(heap.g).big[a := sz]
  {
    var n := PagesFor(sz);
    PagesCover(sz);
    var r := Dumbvm.StealMem(first, last, n);
    var page := if r.0 == 0 then 0 else KSEG0 + r.0;
    if r.0 != 0 {
      BumpIsFresh(heap.g.out, first, last, n);
      Dumbvm.StealMemFits(first, last, n);
    }
    var took;
    a, took := heap.Kmalloc(sz, page);
    first' := if took then r.1 else first;
  }

  /** The request wraps around in the page source and is granted all the same. */
  predicate Breaks(first: nat, last: nat, q: Request) {
    q.Malloc? && q.sz < 0x1_0000_0000 && !NoWrap(first, q.sz) && Dumbvm.StealMem(first, last, PagesFor(q.sz)).0 != 0
  }

  /**
   Any program that frees each block once and writes only to its own blocks,
   over the real page source, up to the first request that wraps around there
   and is granted: the heap stays in order, and when the program holds nothing
   any more, neither does the heap.
   */
  method Program(mem: map<nat, nat>, first0: nat, last: nat, requests: seq<Request>)
    returns (heap: Heap, hs: seq<Handle>, first: nat, done: nat)
    requires 0 < first0 <= last <= 0x1fc0_0000 && first0 % PAGE_SIZE == 0
    ensures heap.Valid() && Tracks(heap.g, hs) && AllBelow(heap.g.out, first)
    ensures done <= |requests| && (done < |requests| ==> Breaks(first, last, requests[done]))
    ensures hs == [] ==> heap.g.out == map[] && forall k: nat | k < NPAGEREFS :: !InUse(heap.h.inuse, k)
  {
    heap := new Heap(mem);
    hs, first, done := [], first0, 0;
    while done < |requests| && !Breaks(first, last, requests[done])
      invariant done <= |requests|
      invariant heap.Valid() && fresh(heap) && Tracks(heap.g, hs) && AllBelow(heap.g.out, first)
      invariant 0 < first <= last && first % PAGE_SIZE == 0
    {
      hs, first := Perform(heap, hs, first, last, requests[done]);
      done := done + 1;
    }
    if hs == [] {
      NothingHeld(heap.h, heap.g);
    }
  }

  method Perform(heap: Heap, hs: seq<Handle>, first: nat, last: nat, q: Request) returns (hs': seq<Handle>, first': nat)
    requires heap.Valid() && Tracks(heap.g, hs) && AllBelow(heap.g.out, first)
    requires 0 < first <= last <= 0x1fc0_0000 && first % PAGE_SIZE == 0 && !Breaks(first, last, q)
    modifies heap
    ensures heap.Valid() && Tracks(heap.g, hs') && AllBelow(heap.g.out, first')
    ensures first <= first' <= last && first' % PAGE_SIZE == 0
  {
    ghost var g := heap.g;
    hs', first' := hs, first;
    match q
    case Malloc(sz) =>
      if sz < 0x1_0000_0000 {
        var a;
        a, first' := MallocPages(heap, first, last, sz);
        if a != 0 {
          TrackNew(g, heap.g, hs, a, sz);
          hs' := hs + [Handle(a, sz)];
        }
      }
    case Free(n) =>
      if n < |hs| {
        heap.Kfree(hs[n].ptr);
        TrackGone(g, heap.g, hs, n);
        BelowSubset(g.out, heap.g.out, first);
        hs' := Without(hs, n);
      }
    case Write(n, off, w) =>
      if n < |hs| && off < hs[n].sz {
        HandleOwns(heap.h, heap.g, hs, n, off);
        heap.Store(hs[n].ptr, hs[n].ptr + off, w);
      }
  }

  lemma NothingHeld(h: HeapState, g: Spec)
    requires Good(h, g) && Tracks(g, [])
    ensures g.out == map[] && forall k: nat | k < NPAGEREFS :: !InUse(h.inuse, k)
  {
    forall a: nat
      ensures a !in g.live && a !in g.big
    {
      assert a in g.live || a in g.big ==> Tracked([], a);
    }
    assert g.live == map[] && g.big == map[];
    AllReturned(h, g);
  }
}
