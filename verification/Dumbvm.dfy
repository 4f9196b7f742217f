/**
 Memory management (kern/arch/mips/mips/dumbvm.c over ram.c): physical pages
 from a bump allocator, address spaces of two regions and a stack, the TLB as
 a cache of the translation, and copying an address space for fork.
 */
module Dumbvm {
  import opened Basics

  const PAGE_SIZE := 4096
  const STACKPAGES := 12
  const USERSTACK := 0x8000_0000
  const NUM_TLB := 64
  const TLBLO_VALID := 0x200
  const TLBLO_DIRTY := 0x400

  /** What a call returns; PANIC if an assertion of the kernel fails in it. */
  datatype VmStatus = OK | EFAULT | ENOMEM | EUNIMP | EINVAL | PANIC

  /** x & PAGE_FRAME. */
  function PageOf(x: nat): nat {
    x - x % PAGE_SIZE
  }

  // ---- Physical memory -------------------------------------------------

  /** ram_stealmem, in its 32-bit arithmetic: the address (0 for none) and the new firstpaddr. */
  function StealMem(first: nat, last: nat, npages: nat): (nat, nat) {
    var size := Wrap32(npages * PAGE_SIZE);
    if Wrap32(first + size) > last then (0, first) else (first, Wrap32(first + size))
  }

  /**
   What is handed out is as large as asked for, and the rest stays free, exactly
   when the sum does not wrap around.
   */
  lemma StealMemFits(first: nat, last: nat, npages: nat)
    requires 0 < first <= last < 0x1_0000_0000 && npages < 0x1_0000_0000 && StealMem(first, last, npages).0 != 0
    ensures first + npages * PAGE_SIZE < 0x1_0000_0000 <==>
              StealMem(first, last, npages).1 == first + npages * PAGE_SIZE && first + npages * PAGE_SIZE <= last
  {}

  /** For instance: 0xfffff pages at 8192 are granted, and firstpaddr goes back to 4096. */
  lemma StealMemWraps()
    ensures StealMem(8192, 0x10_0000, 0xf_ffff) == (8192, 4096)
  {}

  /** A request that ram_stealmem answers rightly: its sum does not wrap around, or it is refused. */
  predicate Answered(first: nat, last: nat, npages: nat) {
    npages < 0x1_0000_0000 && (first + npages * PAGE_SIZE < 0x1_0000_0000 || StealMem(first, last, npages).0 == 0)
  }

  /** What as_prepare_load gets from its three requests, up to the first that comes back 0. */
  datatype Grants = Grants(p1: nat, p2: nat, ps: nat, first: nat)

  function LoadMem(first: nat, last: nat, n1: nat, n2: nat): Grants {
    var (p1, first1) := StealMem(first, last, n1);
    if p1 == 0 then Grants(0, 0, 0, first1)
    else
      var (p2, first2) := StealMem(first1, last, n2);
      if p2 == 0 then Grants(p1, 0, 0, first2)
      else
        var (ps, first3) := StealMem(first2, last, STACKPAGES);
        Grants(p1, p2, ps, first3)
  }

  /** Both requests for the regions are answered rightly. */
  predicate LoadAnswered(first: nat, last: nat, n1: nat, n2: nat) {
    Answered(first, last, n1) && (first + n1 * PAGE_SIZE <= last ==> Answered(first + n1 * PAGE_SIZE, last, n2))
  }

  /** An address space; physical bases are 0 until there is memory behind them. */
  datatype Space = Space(vbase1: nat, pbase1: nat, npages1: nat, vbase2: nat, pbase2: nat, npages2: nat,
                         stackpbase: nat)

  const EMPTY := Space(0, 0, 0, 0, 0, 0, 0)

  const STACKBASE := USERSTACK - STACKPAGES * PAGE_SIZE

  /** One past the end of a region, in the 32 bits of vm_fault: past the top of memory there is no region. */
  function Top(vbase: nat, npages: nat): nat {
    Wrap32(vbase + npages * PAGE_SIZE)
  }

  /** The translation of a page that vm_fault computes; -1 for none. */
  function Translate(sp: Space, va: nat): int {
    if sp.vbase1 <= va < Top(sp.vbase1, sp.npages1) then va - sp.vbase1 + sp.pbase1
    else if sp.vbase2 <= va < Top(sp.vbase2, sp.npages2) then va - sp.vbase2 + sp.pbase2
    else if STACKBASE <= va < USERSTACK then va - STACKBASE + sp.stackpbase
    else -1
  }

  // ---- Who owns which page ---------------------------------------------

  /** The physical page at pa belongs to address space id. */
  predicate Owns(owner: map<nat, nat>, pa: nat, id: nat) {
    pa in owner && owner[pa] == id
  }

  ghost predicate RangeOwned(owner: map<nat, nat>, lo: nat, n: nat, id: nat) {
    forall pa: nat {:trigger Owns(owner, pa, id)} | lo <= pa < lo + n * PAGE_SIZE && pa % PAGE_SIZE == 0 ::
      Owns(owner, pa, id)
  }

  /** What as_define_region can leave in the fields of a region. */
  predicate Shape(vbase: nat, npages: nat) {
    vbase % PAGE_SIZE == 0 && vbase < 0x1_0000_0000 && npages < 0x10_0000
  }

  /** What vm_fault asserts of the regions. */
  predicate Defined(sp: Space) {
    sp.vbase1 != 0 && sp.npages1 != 0 && sp.vbase2 != 0 && sp.npages2 != 0
  }

  /** The pages behind a space are its own, one range after the other. */
  ghost predicate SpaceOk(sp: Space, id: nat, owner: map<nat, nat>) {
    && Shape(sp.vbase1, sp.npages1) && Shape(sp.vbase2, sp.npages2)
    && sp.pbase1 > 0 && sp.pbase1 % PAGE_SIZE == 0 && sp.pbase2 % PAGE_SIZE == 0 && sp.stackpbase % PAGE_SIZE == 0
    && sp.pbase1 + sp.npages1 * PAGE_SIZE <= sp.pbase2 && sp.pbase2 + sp.npages2 * PAGE_SIZE <= sp.stackpbase
    && RangeOwned(owner, sp.pbase1, sp.npages1, id) && RangeOwned(owner, sp.pbase2, sp.npages2, id)
    && RangeOwned(owner, sp.stackpbase, STACKPAGES, id)
  }

  /** A region that holds an address does not reach past the top of memory. */
  lemma InRegion(vbase: nat, npages: nat, va: nat)
    requires Shape(vbase, npages) && vbase <= va < Top(vbase, npages)
    ensures Top(vbase, npages) == vbase + npages * PAGE_SIZE
  {}

  predicate Taken(first: nat, pa: nat) {
    pa + PAGE_SIZE <= first
  }

  ghost predicate PhysOk(first: nat, last: nat, owner: map<nat, nat>) {
    && 0 < first <= last <= 0x1fc0_0000 && first % PAGE_SIZE == 0
    && forall pa {:trigger Taken(first, pa)} | pa in owner :: Taken(first, pa)
  }

  lemma TranslateOwned(sp: Space, id: nat, owner: map<nat, nat>, va: nat)
    requires SpaceOk(sp, id, owner) && va % PAGE_SIZE == 0 && Translate(sp, va) >= 0
    ensures Translate(sp, va) > 0 && Translate(sp, va) % PAGE_SIZE == 0 && Owns(owner, Translate(sp, va), id)
  {
    if sp.vbase1 <= va < Top(sp.vbase1, sp.npages1) {
      InRegion(sp.vbase1, sp.npages1, va);
    } else if sp.vbase2 <= va < Top(sp.vbase2, sp.npages2) {
      InRegion(sp.vbase2, sp.npages2, va);
    }
    assert STACKBASE % PAGE_SIZE == 0;
    AlignedSum(va, sp.vbase1, sp.pbase1);
    AlignedSum(va, sp.vbase2, sp.pbase2);
    AlignedSum(va, STACKBASE, sp.stackpbase);
  }

  lemma AlignedSum(a: nat, b: nat, c: nat)
    requires a % PAGE_SIZE == 0 && b % PAGE_SIZE == 0 && c % PAGE_SIZE == 0
    ensures (a - b + c) % PAGE_SIZE == 0
  {}

  /** Where in the memory of its space an address lies. */
  lemma TranslateRange(sp: Space, id: nat, owner: map<nat, nat>, va: nat)
    requires SpaceOk(sp, id, owner) && Translate(sp, va) >= 0
    ensures var pa := Translate(sp, va);
            || (pa == va - sp.vbase1 + sp.pbase1 && sp.pbase1 <= pa < sp.pbase1 + sp.npages1 * PAGE_SIZE)
            || (pa == va - sp.vbase2 + sp.pbase2 && sp.pbase2 <= pa < sp.pbase2 + sp.npages2 * PAGE_SIZE)
            || (pa == va - STACKBASE + sp.stackpbase && sp.stackpbase <= pa)
  {
    if sp.vbase1 <= va < Top(sp.vbase1, sp.npages1) {
      InRegion(sp.vbase1, sp.npages1, va);
    } else if sp.vbase2 <= va < Top(sp.vbase2, sp.npages2) {
      InRegion(sp.vbase2, sp.npages2, va);
    }
  }

  /** Within a space, different pages are at different places. */
  lemma TranslateInjective(sp: Space, id: nat, owner: map<nat, nat>, va: nat, vb: nat)
    requires SpaceOk(sp, id, owner) && Translate(sp, va) >= 0 && Translate(sp, va) == Translate(sp, vb)
    ensures va == vb
  {
    TranslateRange(sp, id, owner, va);
    TranslateRange(sp, id, owner, vb);
  }

  /** Different spaces never share a page. */
  lemma SpacesDisjoint(sp: Space, sq: Space, id: nat, jd: nat, owner: map<nat, nat>, va: nat, vb: nat)
    requires SpaceOk(sp, id, owner) && SpaceOk(sq, jd, owner) && va % PAGE_SIZE == 0 && vb % PAGE_SIZE == 0
    requires Translate(sp, va) >= 0 && Translate(sp, va) == Translate(sq, vb)
    ensures id == jd
  {
    TranslateOwned(sp, id, owner, va);
    TranslateOwned(sq, jd, owner, vb);
  }

  // ---- What a process sees ---------------------------------------------

  predicate Mapped(sp: Space, va: nat) {
    Translate(sp, PageOf(va)) >= 0
  }

  function Phys(sp: Space, va: nat): nat
    requires Mapped(sp, va)
  {
    Translate(sp, PageOf(va)) + va % PAGE_SIZE
  }

  function View(mem: map<nat, nat>, sp: Space, va: nat): nat
    requires Mapped(sp, va)
  {
    Load(mem, Phys(sp, va))
  }

  lemma SplitAddress(a: nat, i: nat, b: nat, j: nat)
    requires a % PAGE_SIZE == 0 && b % PAGE_SIZE == 0 && i < PAGE_SIZE && j < PAGE_SIZE && a + i == b + j
    ensures a == b && i == j
  {}

  lemma PageAligned(va: nat)
    ensures PageOf(va) % PAGE_SIZE == 0 && va == PageOf(va) + va % PAGE_SIZE
  {}

  /** One physical address is one address of one space. */
  lemma PhysInjective(sp: Space, sq: Space, id: nat, jd: nat, owner: map<nat, nat>, va: nat, vb: nat)
    requires SpaceOk(sp, id, owner) && SpaceOk(sq, jd, owner) && (id == jd ==> sp == sq)
    requires Mapped(sp, va) && Mapped(sq, vb) && Phys(sp, va) == Phys(sq, vb)
    ensures id == jd && va == vb
  {
    PageAligned(va);
    PageAligned(vb);
    TranslateOwned(sp, id, owner, PageOf(va));
    TranslateOwned(sq, jd, owner, PageOf(vb));
    SplitAddress(Translate(sp, PageOf(va)), va % PAGE_SIZE, Translate(sq, PageOf(vb)), vb % PAGE_SIZE);
    SpacesDisjoint(sp, sq, id, jd, owner, PageOf(va), PageOf(vb));
    TranslateInjective(sp, id, owner, PageOf(va), PageOf(vb));
  }

  // ---- The TLB ---------------------------------------------------------

  datatype Entry = Entry(ehi: nat, elo: nat)

  /** Bit 9 of the low word is set. */
  predicate IsValid(e: Entry) {
    e.elo % 0x400 >= TLBLO_VALID
  }

  /** Bit 10 is set, and the hardware lets a store through. */
  predicate IsDirty(e: Entry) {
    e.elo % 0x800 >= TLBLO_DIRTY
  }

  /** paddr | TLBLO_DIRTY | TLBLO_VALID, for a page-aligned paddr. */
  function MakeElo(pa: nat): nat {
    pa + TLBLO_DIRTY + TLBLO_VALID
  }

  lemma ValidBit(x: nat, q: nat)
    requires x == 0x400 * q + 0x200
    ensures x % 0x400 == 0x200
  {}

  lemma DirtyBit(x: nat, q: nat)
    requires x == 0x800 * q + 0x600
    ensures x % 0x800 == 0x600
  {}

  lemma PageBits(x: nat, q: nat)
    requires x == 0x1000 * q + 0x600
    ensures x % 0x1000 == 0x600
  {}

  lemma EloFields(pa: nat)
    requires pa % PAGE_SIZE == 0
    ensures IsValid(Entry(0, MakeElo(pa))) && IsDirty(Entry(0, MakeElo(pa))) && PageOf(MakeElo(pa)) == pa
  {
    var q := pa / PAGE_SIZE;
    ValidBit(MakeElo(pa), 4 * q + 1);
    DirtyBit(MakeElo(pa), 2 * q);
    PageBits(MakeElo(pa), q);
  }

  /** A valid entry says what vm_fault would compute. */
  predicate EntryOk(e: Entry, sp: Space) {
    IsValid(e) ==> e.ehi % PAGE_SIZE == 0 && Translate(sp, e.ehi) >= 0 && Translate(sp, e.ehi) == PageOf(e.elo)
  }

  ghost predicate TlbOk(tlb: seq<Entry>, sp: Space) {
    && |tlb| == NUM_TLB
    && (forall k {:trigger EntryOk(tlb[k], sp)} | 0 <= k < NUM_TLB :: EntryOk(tlb[k], sp))
    && (forall j, k | 0 <= j < k < NUM_TLB :: IsValid(tlb[j]) && IsValid(tlb[k]) ==> tlb[j].ehi != tlb[k].ehi)
  }

  /** An entry for this page. */
  predicate Hit(tlb: seq<Entry>, k: nat, va: nat) {
    k < |tlb| && IsValid(tlb[k]) && tlb[k].ehi == PageOf(va)
  }

  predicate Miss(tlb: seq<Entry>, va: nat) {
    forall k: nat | k < |tlb| :: !Hit(tlb, k, va)
  }

  datatype FaultType = ReadFault | WriteFault | ReadonlyFault | OtherFault

  /**
   What the hardware can raise: a store to a page whose entry is not dirty, or an
   access to a page that has no entry.
   */
  predicate CanFault(tlb: seq<Entry>, kind: FaultType, va: nat) {
    if kind == ReadonlyFault then exists k: nat :: k < |tlb| && Hit(tlb, k, va) && !IsDirty(tlb[k]) else Miss(tlb, va)
  }

  /** Every entry can be written through. */
  predicate AllDirty(tlb: seq<Entry>) {
    forall k | 0 <= k < |tlb| :: IsValid(tlb[k]) ==> IsDirty(tlb[k])
  }

  /** Address space cur is active; it is the current thread's, or NONE for a thread without one. */
  datatype State = State(first: nat, last: nat, mem: map<nat, nat>, spaces: map<nat, Space>, cur: int, tlb: seq<Entry>)

  const NONE := -1

  ghost predicate Good(s: State, owner: map<nat, nat>) {
    && PhysOk(s.first, s.last, owner)
    && (forall id: nat {:trigger id in s.spaces} | id in s.spaces :: SpaceOk(s.spaces[id], id, owner))
    && |s.tlb| == NUM_TLB && AllDirty(s.tlb) && s.cur >= NONE
    && (s.cur != NONE ==> s.cur in s.spaces && TlbOk(s.tlb, s.spaces[s.cur]))
  }

  /** The same addresses are mapped, and read the same. */
  ghost predicate SeesSame(mem: map<nat, nat>, sp: Space, mem': map<nat, nat>, sq: Space) {
    forall va: nat {:trigger Mapped(sq, va)} ::
      (Mapped(sq, va) <==> Mapped(sp, va))
      && (Mapped(sp, va) && Mapped(sq, va) ==> View(mem', sq, va) == View(mem, sp, va))
  }

  /** Every space is as it was, and so is what it sees. */
  ghost predicate OthersSeeSame(s: State, s': State) {
    forall id: nat {:trigger id in s'.spaces} | id in s.spaces ::
      id in s'.spaces && s'.spaces[id] == s.spaces[id] && SeesSame(s.mem, s.spaces[id], s'.mem, s.spaces[id])
  }

  /** A read or write fault in a space that vm_fault's assertions refuse. */
  predicate Asserts(s: State, kind: FaultType) {
    (kind == ReadFault || kind == WriteFault) && s.cur != NONE && s.cur in s.spaces && !Defined(s.spaces[s.cur])
  }

  class Vm {
    var s: State
    ghost var owner: map<nat, nat>

    ghost predicate Valid()
      reads this
    {
      Good(s, owner)
    }

    constructor (first: nat, last: nat, mem: map<nat, nat>)
      requires 0 < first <= last <= 0x1fc0_0000 && first % PAGE_SIZE == 0
      ensures Valid() && s.first == first && s.last == last
      ensures s.spaces == map[] && s.cur == NONE && s.mem == mem
    {
      s := State(first, last, mem, map[], NONE, seq(NUM_TLB, i => Entry(0, 0)));
      owner := map[];
    }

    /** as_activate, when a thread with this address space gets the processor: every entry is invalidated. */
    method Activate(id: nat)
      requires Valid() && id in s.spaces
      modifies this
      ensures Valid() && s == old(s).(cur := id, tlb := s.tlb) && owner == old(owner)
      ensures forall k | 0 <= k < NUM_TLB :: !IsValid(s.tlb[k])
    {
      var tlb := s.tlb;
      for i := 0 to NUM_TLB
        invariant |tlb| == NUM_TLB && forall k | 0 <= k < i :: tlb[k] == Entry((0x8_0000 + k) * PAGE_SIZE, 0)
      {
        tlb := tlb[i := Entry((0x8_0000 + i) * PAGE_SIZE, 0)];
      }
      s := s.(cur := id, tlb := tlb);
    }

    /** A thread without an address space gets the processor; nothing is done to the TLB. */
    method KernelThread()
      requires Valid()
      modifies this
      ensures Valid() && s == old(s).(cur := NONE) && owner == old(owner)
    {
      s := s.(cur := NONE);
    }

    /**
     vm_fault: an entry that agrees with the translation goes into the first
     invalid slot. The panic over a read-only page is never reached; the
     assertions on the address space fail exactly for one with a region that
     is empty or starts on page 0.
     */
    method Fault(kind: FaultType, va: nat) returns (r: VmStatus)
      requires Valid() && CanFault(s.tlb, kind, va)
      modifies this
      ensures Valid() && s == old(s).(tlb := s.tlb) && owner == old(owner)
      ensures r == EINVAL <==> kind == OtherFault
      ensures r == PANIC <==> Asserts(s, kind)
      ensures r == OK || r == EFAULT || r == EINVAL || r == PANIC
      ensures kind != OtherFault && r != PANIC ==>
                (r == OK <==>
                   && s.cur != NONE && Mapped(s.spaces[s.cur], va)
                   && exists k :: 0 <= k < NUM_TLB && !IsValid(old(s).tlb[k]))
      ensures r != OK ==> s.tlb == old(s).tlb
      ensures r == OK ==> exists k: nat {:trigger Hit(s.tlb, k, va)} ::
                Hit(s.tlb, k, va) && !IsValid(old(s).tlb[k]) && s.tlb == old(s).tlb[k := s.tlb[k]]
    {
      var page := PageOf(va);
      if kind == ReadonlyFault {
        assert false;
      }
      if kind == OtherFault {
        return EINVAL;
      }
      if s.cur == NONE {
        return EFAULT;
      }
      var sp := s.spaces[s.cur];
      if sp.vbase1 == 0 || sp.npages1 == 0 || sp.vbase2 == 0 || sp.npages2 == 0 {
        return PANIC;
      }
      assert sp.pbase1 != 0 && sp.pbase2 != 0 && sp.stackpbase != 0;
      var pa := Translate(sp, page);
      if pa < 0 {
        return EFAULT;
      }
      PageAligned(va);
      TranslateOwned(sp, s.cur, owner, page);
      assert pa % PAGE_SIZE == 0;
      EloFields(pa);
      for i := 0 to NUM_TLB
        invariant s == old(s) && forall k | 0 <= k < i :: IsValid(s.tlb[k])
      {
        if !IsValid(s.tlb[i]) {
          NewEntry(s.tlb, sp, i, va);
          s := s.(tlb := s.tlb[i := Entry(page, MakeElo(pa))]);
          assert Hit(s.tlb, i, va);
          return OK;
        }
      }
      return EFAULT;
    }

    /** getppages: the next pages in order, or 0 when there are not enough, if the sum does not wrap around. */
    method GetPpages(n: nat) returns (pa: nat)
      requires Valid() && n < 0x1_0000_0000
      modifies this
      ensures owner == old(owner) && s == old(s).(first := s.first)
      ensures (pa, s.first) == StealMem(old(s).first, s.last, n)
      ensures Answered(old(s).first, s.last, n) ==>
                && Valid() && (pa == 0 <==> old(s).first + n * PAGE_SIZE > s.last)
                && (pa == 0 ==> s.first == old(s).first)
                && (pa != 0 ==> pa == old(s).first && s.first == old(s).first + n * PAGE_SIZE)
    {
      if Answered(s.first, s.last, n) {
        Answers(s.first, s.last, n);
        PagesAligned(s.first, n);
        GrowFirst(s, owner, s.first + n * PAGE_SIZE);
      }
      var r := StealMem(s.first, s.last, n);
      pa := r.0;
      s := s.(first := r.1);
    }

    /** as_prepare_load's three requests. */
    method LoadPages(n1: nat, n2: nat) returns (g: Grants)
      requires n1 < 0x1_0000_0000 && n2 < 0x1_0000_0000
      modifies this`s
      ensures s == old(s).(first := s.first) && g == LoadMem(old(s).first, s.last, n1, n2) && s.first == g.first
    {
      var r := StealMem(s.first, s.last, n1);
      s := s.(first := r.1);
      g := Grants(r.0, 0, 0, s.first);
      if g.p1 == 0 {
        return;
      }
      r := StealMem(s.first, s.last, n2);
      s := s.(first := r.1);
      g := g.(p2 := r.0, first := s.first);
      if g.p2 == 0 {
        return;
      }
      r := StealMem(s.first, s.last, STACKPAGES);
      s := s.(first := r.1);
      g := g.(ps := r.0, first := s.first);
    }

    /**
     as_prepare_load: memory for both regions and the stack. If neither sum
     wraps around, ENOMEM comes exactly when there is not enough for all three.
     */
    method PrepareLoad(id: nat, sp: Space) returns (r: VmStatus)
      requires Valid() && id !in s.spaces && Shape(sp.vbase1, sp.npages1) && Shape(sp.vbase2, sp.npages2)
      requires sp.pbase1 == 0 && sp.pbase2 == 0 && sp.stackpbase == 0
      modifies this
      ensures s == old(s).(first := s.first, spaces := s.spaces) && (r == OK || r == ENOMEM)
      ensures r == ENOMEM ==> s.spaces == old(s).spaces && owner == old(owner)
      ensures var g := LoadMem(old(s).first, s.last, sp.npages1, sp.npages2);
              && s.first == g.first && (r == ENOMEM <==> g.p1 == 0 || g.p2 == 0 || g.ps == 0)
              && (r == OK ==>
                    && s.spaces == old(s).spaces[id := sp.(pbase1 := g.p1, pbase2 := g.p2, stackpbase := g.ps)]
                    && owner == Handed(old(owner), g, sp.npages1, sp.npages2, id))
      ensures LoadAnswered(old(s).first, s.last, sp.npages1, sp.npages2) ==>
                && Valid() && (r == OK ==> old(s).first <= s.spaces[id].pbase1)
                && (r == ENOMEM <==> old(s).first + (sp.npages1 + sp.npages2 + STACKPAGES) * PAGE_SIZE > s.last)
    {
      var g := LoadPages(sp.npages1, sp.npages2);
      if LoadAnswered(old(s).first, s.last, sp.npages1, sp.npages2) {
        Loaded(old(s), owner, id, sp);
      }
      if g.p1 == 0 || g.p2 == 0 || g.ps == 0 {
        return ENOMEM;
      }
      owner := Handed(owner, g, sp.npages1, sp.npages2, id);
      s := s.(spaces := s.spaces[id := sp.(pbase1 := g.p1, pbase2 := g.p2, stackpbase := g.ps)]);
      return OK;
    }

    /** as_copy: the child sees what the parent sees, in pages of its own; everyone else sees what they saw. */
    method Copy(id: nat, jd: nat) returns (r: VmStatus)
      requires Valid() && id in s.spaces && jd !in s.spaces
      modifies this
      ensures Valid() && s == old(s).(first := s.first, mem := s.mem, spaces := s.spaces) && (r == OK || r == ENOMEM)
      ensures var sp := old(s).spaces[id];
              r == ENOMEM <==> old(s).first + (sp.npages1 + sp.npages2 + STACKPAGES) * PAGE_SIZE > s.last
      ensures r == ENOMEM ==> s.spaces == old(s).spaces && s.mem == old(s).mem
      ensures r == OK ==> jd in s.spaces && s.spaces == old(s).spaces[jd := s.spaces[jd]] && OthersSeeSame(old(s), s)
      ensures r == OK ==> SeesSame(old(s).mem, old(s).spaces[id], s.mem, s.spaces[jd])
    {
      var old_ := s.spaces[id];
      SpaceBelow(s, owner, id);
      CopyAnswered(s.first, s.last, old_);
      r := PrepareLoad(jd,
                       EMPTY.(vbase1 := old_.vbase1, npages1 := old_.npages1, vbase2 := old_.vbase2,
                              npages2 := old_.npages2));
      if r == ENOMEM {
        return;
      }
      var new_ := s.spaces[jd];
      assert id in s.spaces && s.spaces[id] == old_;
      assert new_.pbase1 != 0 && new_.pbase2 != 0 && new_.stackpbase != 0;
      var m1 := Memmove(s.mem, new_.pbase1, old_.pbase1, old_.npages1 * PAGE_SIZE);
      var m2 := Memmove(m1, new_.pbase2, old_.pbase2, old_.npages2 * PAGE_SIZE);
      var m3 := Memmove(m2, new_.stackpbase, old_.stackpbase, STACKPAGES * PAGE_SIZE);
      CopiedSpace(old_, id, new_, jd, owner, s.mem, m1, m2, m3);
      CopiedElsewhere(old(s), old(owner), old_, new_, m1, m2, m3);
      s := s.(mem := m3);
    }

    /**
     A store by the running process, through the TLB: it changes that address for
     that process, and nothing else for anyone.
     */
    method Store(k: nat, va: nat, x: nat)
      requires Valid() && s.cur != NONE && Hit(s.tlb, k, va)
      modifies this
      ensures Valid() && s == old(s).(mem := s.mem) && owner == old(owner) && Mapped(s.spaces[s.cur], va)
      ensures forall id: nat, vb: nat {:trigger s.spaces[id], PageOf(vb)} |
                id in s.spaces && Mapped(s.spaces[id], vb) ::
                View(s.mem, s.spaces[id], vb) ==
                  if id == s.cur && vb == va then x else View(old(s).mem, s.spaces[id], vb)
    {
      ghost var sp := s.spaces[s.cur];
      assert EntryOk(s.tlb[k], sp);
      var pa := PageOf(s.tlb[k].elo) + va % PAGE_SIZE;
      assert pa == Phys(sp, va);
      forall id: nat, vb: nat | id in s.spaces && Mapped(s.spaces[id], vb) && Phys(s.spaces[id], vb) == pa
        ensures id == s.cur && vb == va
      {
        PhysInjective(s.spaces[id], sp, id, s.cur, owner, vb, va);
      }
      s := s.(mem := s.mem[pa := x]);
    }

    /** as_destroy, of a space no thread runs in. */
    method Destroy(id: nat)
      requires Valid() && id in s.spaces && s.cur != id
      modifies this
      ensures Valid() && s == old(s).(spaces := old(s).spaces - {id}) && owner == old(owner)
    {
      s := s.(spaces := s.spaces - {id});
    }
  }

  // ---- New address spaces ----------------------------------------------

  ghost predicate Copied(mem: map<nat, nat>, mem': map<nat, nat>, dst: nat, src: nat, len: nat) {
    && (forall x: nat {:trigger Load(mem', x)} | dst <= x < dst + len :: Load(mem', x) == Load(mem, x - dst + src))
    && (forall x: nat {:trigger Load(mem', x)} | !(dst <= x < dst + len) :: Load(mem', x) == Load(mem, x))
  }

  lemma CopyOne(mem: map<nat, nat>, mem': map<nat, nat>, dst: nat, src: nat, k: nat)
    requires Copied(mem, mem', dst, src, k) && !(dst <= src + k < dst + k)
    ensures Copied(mem, mem'[dst + k := Load(mem', src + k)], dst, src, k + 1)
  {
    var mem2 := mem'[dst + k := Load(mem', src + k)];
    assert Load(mem', src + k) == Load(mem, src + k);
    forall x: nat
      ensures dst <= x < dst + k + 1 ==> Load(mem2, x) == Load(mem, x - dst + src)
      ensures !(dst <= x < dst + k + 1) ==> Load(mem2, x) == Load(mem, x)
    {
      assert x != dst + k ==> Load(mem2, x) == Load(mem', x);
    }
  }

  method Memmove(mem: map<nat, nat>, dst: nat, src: nat, len: nat) returns (mem': map<nat, nat>)
    requires src + len <= dst || dst + len <= src
    ensures Copied(mem, mem', dst, src, len)
  {
    mem' := mem;
    for k := 0 to len
      invariant Copied(mem, mem', dst, src, k)
    {
      CopyOne(mem, mem', dst, src, k);
      mem' := mem'[dst + k := Load(mem', src + k)];
    }
  }

  lemma RangeBelow(first: nat, last: nat, owner: map<nat, nat>, lo: nat, n: nat, id: nat)
    requires PhysOk(first, last, owner) && RangeOwned(owner, lo, n, id) && n > 0 && lo % PAGE_SIZE == 0
    ensures lo + n * PAGE_SIZE <= first
  {
    var pa := lo + (n - 1) * PAGE_SIZE;
    PagesAligned(lo, n - 1);
    assert Owns(owner, pa, id) && Taken(first, pa);
  }

  /** Every range of every space ends below the first free page. */
  lemma SpaceBelow(s: State, owner: map<nat, nat>, id: nat)
    requires Good(s, owner) && id in s.spaces
    ensures s.spaces[id].stackpbase + STACKPAGES * PAGE_SIZE <= s.first
  {
    RangeBelow(s.first, s.last, owner, s.spaces[id].stackpbase, STACKPAGES, id);
  }

  /** Three copies upwards, one after the other. */
  lemma ThreeCopies(m0: map<nat, nat>, m1: map<nat, nat>, m2: map<nat, nat>, m3: map<nat, nat>,
                    a1: nat, b1: nat, l1: nat, a2: nat, b2: nat, l2: nat, a3: nat, b3: nat, l3: nat, x: nat)
    requires Copied(m0, m1, a1, b1, l1) && Copied(m1, m2, a2, b2, l2) && Copied(m2, m3, a3, b3, l3)
    requires b1 + l1 <= b2 && b2 + l2 <= b3 && b3 + l3 <= a1 && a1 + l1 <= a2 && a2 + l2 <= a3
    ensures a1 <= x < a1 + l1 ==> Load(m3, x) == Load(m0, x - a1 + b1)
    ensures a2 <= x < a2 + l2 ==> Load(m3, x) == Load(m0, x - a2 + b2)
    ensures a3 <= x < a3 + l3 ==> Load(m3, x) == Load(m0, x - a3 + b3)
    ensures x < a1 ==> Load(m3, x) == Load(m0, x)
  {
    if a3 <= x < a3 + l3 {
      var y := x - a3 + b3;
      assert Load(m2, y) == Load(m1, y) == Load(m0, y);
    } else if a2 <= x < a2 + l2 {
      var y := x - a2 + b2;
      assert Load(m3, x) == Load(m2, x) && Load(m1, y) == Load(m0, y);
    } else {
      assert Load(m3, x) == Load(m2, x) == Load(m1, x);
    }
  }

  ghost predicate CopiedAll(sp: Space, sq: Space, m0: map<nat, nat>, m1: map<nat, nat>, m2: map<nat, nat>,
                            m3: map<nat, nat>)
  {
    && Copied(m0, m1, sq.pbase1, sp.pbase1, sp.npages1 * PAGE_SIZE)
    && Copied(m1, m2, sq.pbase2, sp.pbase2, sp.npages2 * PAGE_SIZE)
    && Copied(m2, m3, sq.stackpbase, sp.stackpbase, STACKPAGES * PAGE_SIZE)
  }

  ghost predicate SameLayout(sp: Space, sq: Space) {
    sq.vbase1 == sp.vbase1 && sq.npages1 == sp.npages1 && sq.vbase2 == sp.vbase2 && sq.npages2 == sp.npages2
  }

  lemma CopiedSpace(sp: Space, id: nat, sq: Space, jd: nat, owner: map<nat, nat>,
                    m0: map<nat, nat>, m1: map<nat, nat>, m2: map<nat, nat>, m3: map<nat, nat>)
    requires SpaceOk(sp, id, owner) && SpaceOk(sq, jd, owner) && SameLayout(sp, sq)
    requires sp.stackpbase + STACKPAGES * PAGE_SIZE <= sq.pbase1 && CopiedAll(sp, sq, m0, m1, m2, m3)
    ensures SeesSame(m0, sp, m3, sq)
  {
    forall va: nat
      ensures Mapped(sq, va) <==> Mapped(sp, va)
      ensures Mapped(sp, va) && Mapped(sq, va) ==> View(m3, sq, va) == View(m0, sp, va)
    {
      PageAligned(va);
      if Mapped(sp, va) && Mapped(sq, va) {
        ThreeCopies(m0, m1, m2, m3, sq.pbase1, sp.pbase1, sp.npages1 * PAGE_SIZE, sq.pbase2, sp.pbase2,
                    sp.npages2 * PAGE_SIZE,
                    sq.stackpbase, sp.stackpbase, STACKPAGES * PAGE_SIZE, Phys(sq, va));
        PhysInRange(sp, sq, va);
      }
    }
  }

  /** The two places of an address lie equally far into ranges that correspond. */
  lemma PhysInRange(sp: Space, sq: Space, va: nat)
    requires Shape(sp.vbase1, sp.npages1) && Shape(sp.vbase2, sp.npages2)
    requires SameLayout(sp, sq) && Mapped(sp, va) && Mapped(sq, va)
    ensures var (x, y) := (Phys(sq, va), Phys(sp, va));
            || (sq.pbase1 <= x < sq.pbase1 + sp.npages1 * PAGE_SIZE && y == x - sq.pbase1 + sp.pbase1)
            || (sq.pbase2 <= x < sq.pbase2 + sp.npages2 * PAGE_SIZE && y == x - sq.pbase2 + sp.pbase2)
            || (sq.stackpbase <= x < sq.stackpbase + STACKPAGES * PAGE_SIZE && y == x - sq.stackpbase + sp.stackpbase)
  {
    var page := PageOf(va);
    PageAligned(va);
    if sp.vbase1 <= page < Top(sp.vbase1, sp.npages1) {
      InRegion(sp.vbase1, sp.npages1, page);
      PageFits(page, sp.vbase1, sp.npages1);
    } else if sp.vbase2 <= page < Top(sp.vbase2, sp.npages2) {
      InRegion(sp.vbase2, sp.npages2, page);
      PageFits(page, sp.vbase2, sp.npages2);
    } else {
      PageFits(page, STACKBASE, STACKPAGES);
    }
  }

  lemma PageFits(page: nat, base: nat, n: nat)
    requires page % PAGE_SIZE == 0 && base % PAGE_SIZE == 0 && base <= page < base + n * PAGE_SIZE
    ensures page + PAGE_SIZE <= base + n * PAGE_SIZE
  {
    PagesAligned(base, n);
    NextPage(page, base + n * PAGE_SIZE);
  }

  lemma CopiedElsewhere(s: State, owner: map<nat, nat>, sp: Space, sq: Space, m1: map<nat, nat>, m2: map<nat, nat>,
                        m3: map<nat, nat>)
    requires Good(s, owner) && s.first <= sq.pbase1 && sq.pbase1 <= sq.pbase2 <= sq.stackpbase
    requires CopiedAll(sp, sq, s.mem, m1, m2, m3)
    ensures forall id: nat {:trigger id in s.spaces} | id in s.spaces :: SeesSame(s.mem, s.spaces[id], m3, s.spaces[id])
  {
    forall id: nat, va: nat | id in s.spaces && Mapped(s.spaces[id], va)
      ensures View(m3, s.spaces[id], va) == View(s.mem, s.spaces[id], va)
    {
      PageAligned(va);
      TranslateOwned(s.spaces[id], id, owner, PageOf(va));
      assert Taken(s.first, Translate(s.spaces[id], PageOf(va)));
      var x := Phys(s.spaces[id], va);
      assert Load(m3, x) == Load(m2, x) == Load(m1, x) == Load(s.mem, x);
    }
  }

  lemma Granted(s: State, owner: map<nat, nat>, id: nat, sp: Space, first: nat)
    requires Good(s, owner) && id !in s.spaces && Shape(sp.vbase1, sp.npages1) && Shape(sp.vbase2, sp.npages2)
    requires sp.pbase1 == s.first && sp.pbase2 == sp.pbase1 + sp.npages1 * PAGE_SIZE
    requires sp.stackpbase == sp.pbase2 + sp.npages2 * PAGE_SIZE
    requires first == sp.stackpbase + STACKPAGES * PAGE_SIZE && first <= s.last
    ensures Good(s.(first := first, spaces := s.spaces[id := sp]), Grant(owner, s.first, first, id))
  {
    PagesAligned(sp.pbase1, sp.npages1);
    PagesAligned(sp.pbase2, sp.npages2);
    PagesAligned(sp.stackpbase, STACKPAGES);
    GrantOk(s.first, s.last, owner, first, id);
    RangeGranted(owner, s.first, first, id, sp.pbase1, sp.npages1);
    RangeGranted(owner, s.first, first, id, sp.pbase2, sp.npages2);
    RangeGranted(owner, s.first, first, id, sp.stackpbase, STACKPAGES);
    forall jd: nat | jd in s.spaces
      ensures SpaceOk(s.spaces[jd], jd, Grant(owner, s.first, first, id))
    {
      SpaceKept(s.first, s.last, owner, first, id, s.spaces[jd], jd);
    }
  }

  /** A request in the first half of what as_prepare_load does, when it is answered rightly. */
  lemma LoadPlain(first: nat, last: nat, n1: nat, n2: nat)
    requires 0 < first <= last <= 0x1fc0_0000 && LoadAnswered(first, last, n1, n2)
    ensures var g := LoadMem(first, last, n1, n2);
            && (g.p1 == 0 || g.p2 == 0 || g.ps == 0 <==> first + (n1 + n2 + STACKPAGES) * PAGE_SIZE > last)
            && (g.p1 != 0 ==> g.p1 == first) && (g.p2 != 0 ==> g.p2 == first + n1 * PAGE_SIZE)
            && (g.ps != 0 ==> g.ps == g.p2 + n2 * PAGE_SIZE && g.first == g.ps + STACKPAGES * PAGE_SIZE)
            && (g.p1 != 0 && g.p2 == 0 ==> g.first == first + n1 * PAGE_SIZE)
            && (g.p2 != 0 && g.ps == 0 ==> g.first == first + n1 * PAGE_SIZE + n2 * PAGE_SIZE)
            && first <= g.first <= last
  {
    Answers(first, last, n1);
    if first + n1 * PAGE_SIZE <= last {
      Answers(first + n1 * PAGE_SIZE, last, n2);
      if first + n1 * PAGE_SIZE + n2 * PAGE_SIZE <= last {
        Answers(first + n1 * PAGE_SIZE + n2 * PAGE_SIZE, last, STACKPAGES);
      }
    }
  }

  /** Three ranges one after the other make one. */
  lemma HandedWhole(owner: map<nat, nat>, g: Grants, n1: nat, n2: nat, id: nat)
    requires g.p1 > 0 && g.p2 == g.p1 + n1 * PAGE_SIZE && g.ps == g.p2 + n2 * PAGE_SIZE
    requires g.p2 > 0 && g.ps > 0 && g.first == g.ps + STACKPAGES * PAGE_SIZE
    ensures Handed(owner, g, n1, n2, id) == Grant(owner, g.p1, g.first, id)
  {
    forall pa: nat
      ensures InGrants(g, n1, n2, pa) <==> g.p1 <= pa < g.first && pa % PAGE_SIZE == 0
    {}
  }

  /** The state after as_prepare_load, whether it found memory for all or not. */
  lemma Loaded(s: State, owner: map<nat, nat>, id: nat, sp: Space)
    requires Good(s, owner) && id !in s.spaces && Shape(sp.vbase1, sp.npages1) && Shape(sp.vbase2, sp.npages2)
    requires LoadAnswered(s.first, s.last, sp.npages1, sp.npages2)
    ensures var g := LoadMem(s.first, s.last, sp.npages1, sp.npages2);
            var sp' := sp.(pbase1 := g.p1, pbase2 := g.p2, stackpbase := g.ps);
            && (g.p1 == 0 || g.p2 == 0 || g.ps == 0 <==>
                  s.first + (sp.npages1 + sp.npages2 + STACKPAGES) * PAGE_SIZE > s.last)
            && (if g.p1 == 0 || g.p2 == 0 || g.ps == 0 then Good(s.(first := g.first), owner)
                else g.p1 == s.first && Good(s.(first := g.first, spaces := s.spaces[id := sp']),
                                             Handed(owner, g, sp.npages1, sp.npages2, id)))
  {
    var g := LoadMem(s.first, s.last, sp.npages1, sp.npages2);
    LoadPlain(s.first, s.last, sp.npages1, sp.npages2);
    PagesAligned(s.first, sp.npages1);
    PagesAligned(s.first + sp.npages1 * PAGE_SIZE, sp.npages2);
    if g.p1 == 0 || g.p2 == 0 || g.ps == 0 {
      GrowFirst(s, owner, g.first);
    } else {
      HandedWhole(owner, g, sp.npages1, sp.npages2, id);
      Granted(s, owner, id, sp.(pbase1 := g.p1, pbase2 := g.p2, stackpbase := g.ps), g.first);
    }
  }

  /** What a space has fits in memory, so asking for as much again does not wrap around. */
  lemma CopyAnswered(first: nat, last: nat, sp: Space)
    requires 0 < first <= last <= 0x1fc0_0000 && sp.stackpbase + STACKPAGES * PAGE_SIZE <= first
    requires sp.pbase1 + sp.npages1 * PAGE_SIZE <= sp.pbase2 && sp.pbase2 + sp.npages2 * PAGE_SIZE <= sp.stackpbase
    ensures LoadAnswered(first, last, sp.npages1, sp.npages2)
  {}

  lemma PagesAligned(a: nat, n: nat)
    requires a % PAGE_SIZE == 0
    ensures (a + n * PAGE_SIZE) % PAGE_SIZE == 0
  {}

  lemma Answers(first: nat, last: nat, n: nat)
    requires 0 < first <= last <= 0x1fc0_0000 && Answered(first, last, n)
    ensures StealMem(first, last, n) ==
              if first + n * PAGE_SIZE > last then (0, first) else (first, first + n * PAGE_SIZE)
  {}

  /** Memory nobody was given yet may also be lost. */
  lemma GrowFirst(s: State, owner: map<nat, nat>, first: nat)
    requires Good(s, owner) && s.first <= first && first % PAGE_SIZE == 0
    ensures first <= s.last ==> Good(s.(first := first), owner)
  {
    forall pa | pa in owner
      ensures Taken(first, pa)
    {
      assert Taken(s.first, pa);
    }
  }

  /** All pages from lo up to hi go to id. */
  ghost function Grant(owner: map<nat, nat>, lo: nat, hi: nat, id: nat): map<nat, nat> {
    owner + map pa: nat | lo <= pa < hi && pa % PAGE_SIZE == 0 :: id
  }

  ghost function GrantRun(owner: map<nat, nat>, p: nat, n: nat, id: nat): map<nat, nat> {
    if p == 0 then owner else Grant(owner, p, p + n * PAGE_SIZE, id)
  }

  /** Page pa was handed to as_prepare_load by one of its requests. */
  predicate InGrants(g: Grants, n1: nat, n2: nat, pa: nat) {
    && pa % PAGE_SIZE == 0
    && ((g.p1 != 0 && g.p1 <= pa < g.p1 + n1 * PAGE_SIZE)
        || (g.p2 != 0 && g.p2 <= pa < g.p2 + n2 * PAGE_SIZE)
        || (g.ps != 0 && g.ps <= pa < g.ps + STACKPAGES * PAGE_SIZE))
  }

  function GrantsBound(g: Grants, n1: nat, n2: nat): nat {
    g.p1 + g.p2 + g.ps + (n1 + n2 + STACKPAGES) * PAGE_SIZE
  }

  /** The pages that as_prepare_load was told are its own. */
  ghost function Handed(owner: map<nat, nat>, g: Grants, n1: nat, n2: nat, id: nat): map<nat, nat> {
    owner + map pa: nat | pa < GrantsBound(g, n1, n2) && InGrants(g, n1, n2, pa) :: id
  }

  lemma RangeKept(first: nat, last: nat, owner: map<nat, nat>, hi: nat, id: nat, lo: nat, n: nat, jd: nat)
    requires PhysOk(first, last, owner) && RangeOwned(owner, lo, n, jd)
    ensures RangeOwned(Grant(owner, first, hi, id), lo, n, jd)
  {
    forall pa: nat | lo <= pa < lo + n * PAGE_SIZE && pa % PAGE_SIZE == 0
      ensures Owns(Grant(owner, first, hi, id), pa, jd)
    {
      assert Owns(owner, pa, jd) && Taken(first, pa);
    }
  }

  lemma SpaceKept(first: nat, last: nat, owner: map<nat, nat>, hi: nat, id: nat, sp: Space, jd: nat)
    requires PhysOk(first, last, owner) && SpaceOk(sp, jd, owner)
    ensures SpaceOk(sp, jd, Grant(owner, first, hi, id))
  {
    RangeKept(first, last, owner, hi, id, sp.pbase1, sp.npages1, jd);
    RangeKept(first, last, owner, hi, id, sp.pbase2, sp.npages2, jd);
    RangeKept(first, last, owner, hi, id, sp.stackpbase, STACKPAGES, jd);
  }

  lemma RangeGranted(owner: map<nat, nat>, lo: nat, hi: nat, id: nat, base: nat, n: nat)
    requires lo <= base && base + n * PAGE_SIZE <= hi
    ensures RangeOwned(Grant(owner, lo, hi, id), base, n, id)
  {}

  lemma GrantOk(first: nat, last: nat, owner: map<nat, nat>, hi: nat, id: nat)
    requires PhysOk(first, last, owner) && first <= hi <= last && hi % PAGE_SIZE == 0
    ensures PhysOk(hi, last, Grant(owner, first, hi, id))
  {
    forall pa | pa in Grant(owner, first, hi, id)
      ensures Taken(hi, pa)
    {
      if pa in owner {
        assert Taken(first, pa);
      } else {
        NextPage(pa, hi);
      }
    }
  }

  const TOPPAGE := 0xffff_f000

  /** Nobody can own the last page of all: it lies above any memory there is. */
  lemma TopNotTaken(first: nat, last: nat, owner: map<nat, nat>)
    requires TOPPAGE in owner
    ensures !PhysOk(first, last, owner)
  {
    assert first <= last <= 0x1fc0_0000 ==> !Taken(first, TOPPAGE);
  }

  /** A grant leaves every page that was handed out below firstpaddr exactly when its sum did not wrap around. */
  lemma GrantKeeps(first: nat, last: nat, owner: map<nat, nat>, n: nat, id: nat)
    requires PhysOk(first, last, owner) && n < 0x1_0000_0000
    ensures var (pa, first') := StealMem(first, last, n);
            PhysOk(first', last, GrantRun(owner, pa, n, id)) <==> Answered(first, last, n)
    ensures !Answered(first, last, n) ==> TOPPAGE in GrantRun(owner, StealMem(first, last, n).0, n, id)
  {
    if Answered(first, last, n) {
      Answers(first, last, n);
      PagesAligned(first, n);
      if first + n * PAGE_SIZE <= last {
        GrantOk(first, last, owner, first + n * PAGE_SIZE, id);
      }
    } else {
      assert TOPPAGE % PAGE_SIZE == 0;
      TopNotTaken(StealMem(first, last, n).1, last, GrantRun(owner, first, n, id));
    }
  }

  /**
   The same of as_prepare_load: what it was handed lies below firstpaddr
   exactly when neither of its sums wrapped around.
   */
  lemma LoadKeeps(first: nat, last: nat, owner: map<nat, nat>, n1: nat, n2: nat, id: nat)
    requires PhysOk(first, last, owner) && n1 < 0x1_0000_0000 && n2 < 0x1_0000_0000
    ensures var g := LoadMem(first, last, n1, n2);
            PhysOk(g.first, last, Handed(owner, g, n1, n2, id)) <==> LoadAnswered(first, last, n1, n2)
  {
    var g := LoadMem(first, last, n1, n2);
    if LoadAnswered(first, last, n1, n2) {
      LoadPlain(first, last, n1, n2);
      LoadBelow(first, last, owner, g, n1, n2, id);
    } else {
      LoadWraps(first, last, n1, n2);
      assert InGrants(g, n1, n2, TOPPAGE) && TOPPAGE < GrantsBound(g, n1, n2);
      TopNotTaken(g.first, last, Handed(owner, g, n1, n2, id));
    }
  }

  /** A request that wraps around and is granted claims the last page of all. */
  lemma LoadWraps(first: nat, last: nat, n1: nat, n2: nat)
    requires 0 < first <= last <= 0x1fc0_0000 && n1 < 0x1_0000_0000 && n2 < 0x1_0000_0000
    requires !LoadAnswered(first, last, n1, n2)
    ensures InGrants(LoadMem(first, last, n1, n2), n1, n2, TOPPAGE)
  {
    assert TOPPAGE % PAGE_SIZE == 0;
    if Answered(first, last, n1) {
      Answers(first, last, n1);
    }
  }

  lemma LoadBelow(first: nat, last: nat, owner: map<nat, nat>, g: Grants, n1: nat, n2: nat, id: nat)
    requires PhysOk(first, last, owner) && LoadAnswered(first, last, n1, n2) && g == LoadMem(first, last, n1, n2)
    ensures PhysOk(g.first, last, Handed(owner, g, n1, n2, id))
  {
    LoadPlain(first, last, n1, n2);
    PagesAligned(first, n1);
    PagesAligned(first + n1 * PAGE_SIZE, n2);
    PagesAligned(first + n1 * PAGE_SIZE + n2 * PAGE_SIZE, STACKPAGES);
    forall pa | pa in Handed(owner, g, n1, n2, id)
      ensures Taken(g.first, pa)
    {
      if pa in owner {
        assert Taken(first, pa);
      } else {
        assert pa < g.first;
        NextPage(pa, g.first);
      }
    }
  }

  /**
   For instance: with page 4096 in use, a grant of 0xfffff pages at 8192 makes
   that page the next one to be granted.
   */
  lemma OwnedPageGranted(id: nat)
    ensures PhysOk(8192, 0x10_0000, map[4096 := id])
    ensures var first' := StealMem(8192, 0x10_0000, 0xf_ffff).1;
            !PhysOk(first', 0x10_0000, map[4096 := id]) && StealMem(first', 0x10_0000, 1).0 == 4096
  {
    assert 4096 in map[4096 := id] && !Taken(4096, 4096);
  }

  lemma NextPage(pa: nat, hi: nat)
    requires pa % PAGE_SIZE == 0 && hi % PAGE_SIZE == 0 && pa < hi
    ensures pa + PAGE_SIZE <= hi
  {}

  lemma NewEntry(tlb: seq<Entry>, sp: Space, i: nat, va: nat)
    requires TlbOk(tlb, sp) && i < NUM_TLB && Mapped(sp, va) && Translate(sp, PageOf(va)) % PAGE_SIZE == 0
    requires Miss(tlb, va)
    ensures TlbOk(tlb[i := Entry(PageOf(va), MakeElo(Translate(sp, PageOf(va))))], sp)
  {
    var e := Entry(PageOf(va), MakeElo(Translate(sp, PageOf(va))));
    var tlb' := tlb[i := e];
    EloFields(Translate(sp, PageOf(va)));
    PageAligned(va);
    forall k | 0 <= k < NUM_TLB
      ensures EntryOk(tlb'[k], sp)
    {
      assert EntryOk(tlb[k], sp);
    }
    forall j, k | 0 <= j < k < NUM_TLB && IsValid(tlb'[j]) && IsValid(tlb'[k])
      ensures tlb'[j].ehi != tlb'[k].ehi
    {
      assert !Hit(tlb, j, va) && !Hit(tlb, k, va);
    }
  }

  // ---- Regions ---------------------------------------------------------

  /** as_define_region, in its 32-bit arithmetic: the page-aligned base and the number of pages. */
  function Region(vaddr: nat, sz: nat): (nat, nat) {
    (PageOf(vaddr), PageOf(Wrap32(Wrap32(sz + vaddr % PAGE_SIZE) + PAGE_SIZE - 1)) / PAGE_SIZE)
  }

  /** as_define_region: a base of 0 stands for a region not defined yet. */
  function DefineRegion(sp: Space, vaddr: nat, sz: nat): (VmStatus, Space) {
    var (base, npages) := Region(vaddr, sz);
    if sp.vbase1 == 0 then (OK, sp.(vbase1 := base, npages1 := npages))
    else if sp.vbase2 == 0 then (OK, sp.(vbase2 := base, npages2 := npages))
    else (EUNIMP, sp)
  }

  lemma RegionShape(vaddr: nat, sz: nat)
    requires vaddr < 0x1_0000_0000
    ensures Shape(Region(vaddr, sz).0, Region(vaddr, sz).1)
    ensures Region(vaddr, sz).0 == 0 <==> vaddr < PAGE_SIZE
  {
    PageAligned(vaddr);
    var x := Wrap32(Wrap32(sz + vaddr % PAGE_SIZE) + PAGE_SIZE - 1);
    assert PageOf(x) <= x < 0x1_0000_0000;
  }

  /**
   The pages of a region cover what was asked for exactly when the 32-bit
   round-up does not wrap around, and then there is no page too many.
   */
  lemma RegionCovers(vaddr: nat, sz: nat)
    requires vaddr < 0x1_0000_0000 && sz < 0x1_0000_0000
    ensures var (base, npages) := Region(vaddr, sz);
            && base <= vaddr < base + PAGE_SIZE && base % PAGE_SIZE == 0
            && (vaddr + sz <= base + npages * PAGE_SIZE <==> sz + vaddr % PAGE_SIZE + PAGE_SIZE - 1 < 0x1_0000_0000)
            && (vaddr + sz <= base + npages * PAGE_SIZE ==> base + npages * PAGE_SIZE < vaddr + sz + PAGE_SIZE)
  {
    var off := vaddr % PAGE_SIZE;
    var x := sz + off + PAGE_SIZE - 1;
    RoundDown(Wrap32(Wrap32(sz + off) + PAGE_SIZE - 1));
    if x < 0x1_0000_0000 {
      assert Wrap32(Wrap32(sz + off) + PAGE_SIZE - 1) == x;
    } else {
      assert Wrap32(Wrap32(sz + off) + PAGE_SIZE - 1) == x - 0x1_0000_0000;
    }
  }

  lemma RoundDown(x: nat)
    ensures PageOf(x) / PAGE_SIZE * PAGE_SIZE == PageOf(x) && x - PAGE_SIZE < PageOf(x) <= x
  {
    assert x == x / 4096 * 4096 + x % 4096;
  }

  /**
   Two segments and then a third, of any place and size. Both regions are
   defined, so that a third call is refused, exactly if neither segment is on
   page 0. If the first is, the second call overwrites it; if only the second
   is, the third call does.
   */
  lemma TwoRegions(v1: nat, s1: nat, v2: nat, s2: nat, v3: nat, s3: nat)
    requires v1 < 0x1_0000_0000 && v2 < 0x1_0000_0000
    ensures var (r1, sp1) := DefineRegion(EMPTY, v1, s1);
            var (r2, sp2) := DefineRegion(sp1, v2, s2);
            var (r3, sp3) := DefineRegion(sp2, v3, s3);
            && r1 == r2 == OK
            && (r3 == EUNIMP <==> PAGE_SIZE <= v1 && PAGE_SIZE <= v2)
            && (Defined(sp2) <==> PAGE_SIZE <= v1 && PAGE_SIZE <= v2 && Region(v1, s1).1 > 0 && Region(v2, s2).1 > 0)
            && (PAGE_SIZE <= v2 ==> (Recorded(sp2, v1, s1, v2, s2) <==> PAGE_SIZE <= v1))
            && (v1 < PAGE_SIZE ==> (sp2.vbase1, sp2.npages1) == Region(v2, s2) && (sp2.vbase2, sp2.npages2) == (0, 0))
            && (v2 < PAGE_SIZE <= v1 ==> Recorded(sp2, v1, s1, v2, s2) && Recorded(sp3, v1, s1, v3, s3))
  {
    RegionShape(v1, s1);
    RegionShape(v2, s2);
  }

  /** Both regions are as these two segments ask. */
  predicate Recorded(sp: Space, v1: nat, s1: nat, v2: nat, s2: nat) {
    (sp.vbase1, sp.npages1) == Region(v1, s1) && (sp.vbase2, sp.npages2) == Region(v2, s2)
  }

  /** In user space, segments that are not empty can be run exactly if neither is on page 0. */
  lemma UserSegments(v1: nat, s1: nat, v2: nat, s2: nat)
    requires s1 > 0 && s2 > 0 && v1 + s1 <= USERSTACK && v2 + s2 <= USERSTACK
    ensures Defined(DefineRegion(DefineRegion(EMPTY, v1, s1).1, v2, s2).1) <==> PAGE_SIZE <= v1 && PAGE_SIZE <= v2
  {
    TwoRegions(v1, s1, v2, s2, 0, 0);
    RegionCovers(v1, s1);
    RegionCovers(v2, s2);
  }

  /** as_create and any number of calls of as_define_region. */
  function DefineAll(segments: seq<(nat, nat)>): (sp: Space)
    requires forall i | 0 <= i < |segments| :: segments[i].0 < 0x1_0000_0000
    ensures Shape(sp.vbase1, sp.npages1) && Shape(sp.vbase2, sp.npages2)
    ensures sp.pbase1 == 0 && sp.pbase2 == 0 && sp.stackpbase == 0
  {
    if segments == [] then EMPTY
    else
      var n := |segments| - 1;
      RegionShape(segments[n].0, segments[n].1);
      DefineRegion(DefineAll(segments[..n]), segments[n].0, segments[n].1).1
  }

  // ---- Failing runs ----------------------------------------------------

  /** What as_prepare_load gets for two segments of a page each. */
  lemma SmallLoad()
    ensures LoadMem(4096, 0x10_0000, 1, 1) == Grants(4096, 8192, 12288, 61440)
    ensures LoadAnswered(4096, 0x10_0000, 1, 1)
  {}

  /** A second segment on page 0 is taken for no region at all, and the first fault of the program panics. */
  method PageZero(mem: map<nat, nat>) returns (r: VmStatus)
    ensures r == PANIC
  {
    var vm := new Vm(4096, 0x10_0000, mem);
    var sp := EMPTY.(vbase1 := 0x1000, npages1 := 1, npages2 := 1);
    assert sp == DefineRegion(DefineRegion(EMPTY, 0x1000, 1).1, 0, 1).1;
    SmallLoad();
    r := vm.PrepareLoad(0, sp);
    assert vm.s.spaces[0].vbase2 == 0;
    vm.Activate(0);
    r := vm.Fault(ReadFault, 0x1000);
  }

  /** A segment of 0xffffe000 bytes: its pages are granted, and firstpaddr falls from 12288 to 4096. */
  lemma SegmentWraps()
    ensures Region(0x1000, 0xffff_e000) == (0x1000, 0xf_fffe)
    ensures StealMem(12288, 0x10_0000, 0xf_fffe) == (12288, 4096) && !LoadAnswered(12288, 0x10_0000, 0xf_fffe, 1)
  {}

  /** One of 0xffff2000 bytes brings firstpaddr back to where another space begins. */
  lemma LargeLoad()
    ensures Region(0x3000, 0xffff_2000) == (0x3000, 0xf_fff2)
    ensures LoadMem(61440, 0x10_0000, 0xf_fff2, 1) == Grants(61440, 4096, 8192, 57344)
  {}

  /**
   So two processes come to share a page: the second one's segment at 0x2000
   lies where the first one's at 0x1000 does.
   */
  method SharedPage(mem: map<nat, nat>) returns (vm: Vm)
    ensures 0 in vm.s.spaces && 1 in vm.s.spaces
    ensures Translate(vm.s.spaces[0], 0x1000) == Translate(vm.s.spaces[1], 0x2000) == 4096
  {
    vm := new Vm(4096, 0x10_0000, mem);
    var sp := EMPTY.(vbase1 := 0x1000, npages1 := 1, vbase2 := 0x2000, npages2 := 1);
    assert sp == DefineRegion(DefineRegion(EMPTY, 0x1000, 1).1, 0x2000, 1).1;
    SmallLoad();
    var r := vm.PrepareLoad(0, sp);
    var sq := EMPTY.(vbase1 := 0x3000, npages1 := 0xf_fff2, vbase2 := 0x2000, npages2 := 1);
    LargeLoad();
    assert sq == DefineRegion(DefineRegion(EMPTY, 0x3000, 0xffff_2000).1, 0x2000, 1).1;
    r := vm.PrepareLoad(1, sq);
  }

  // ---- Runs ------------------------------------------------------------

  datatype Op =
    | OpCreate(id: nat, segments: seq<(nat, nat)>) | OpFork(id: nat, jd: nat) | OpActivate(id: nat) | OpKernelThread
    | OpFault(kind: FaultType, va: nat) | OpStore(k: nat, va: nat, x: nat) | OpDestroy(id: nat) | OpKpages(n: nat)

  predicate Possible(s: State, op: Op) {
    match op
    case OpCreate(id, segments) =>
      id !in s.spaces && forall i | 0 <= i < |segments| :: segments[i].0 < 0x1_0000_0000
    case OpFork(id, jd) => id in s.spaces && jd !in s.spaces
    case OpActivate(id) => id in s.spaces
    case OpKernelThread => true
    case OpFault(kind, va) => CanFault(s.tlb, kind, va)
    case OpStore(k, va, _) => s.cur != NONE && Hit(s.tlb, k, va)
    case OpDestroy(id) => id in s.spaces && s.cur != id
    case OpKpages(n) => n < 0x1_0000_0000
  }

  /** The operation is the end of all order: a request for pages wraps around and is granted, or an assertion fails. */
  predicate Breaks(s: State, op: Op)
    requires Possible(s, op)
  {
    match op
    case OpCreate(_, segments) =>
      var sp := DefineAll(segments);
      !LoadAnswered(s.first, s.last, sp.npages1, sp.npages2)
    case OpKpages(n) => !Answered(s.first, s.last, n)
    case OpFault(kind, _) => Asserts(s, kind)
    case _ => false
  }

  method Perform(vm: Vm, op: Op)
    requires vm.Valid() && Possible(vm.s, op) && !Breaks(vm.s, op)
    modifies vm
    ensures vm.Valid()
  {
    match op
    case OpCreate(id, segments) => var r := vm.PrepareLoad(id, DefineAll(segments));
    case OpFork(id, jd) => var r := vm.Copy(id, jd);
    case OpActivate(id) => vm.Activate(id);
    case OpKernelThread => vm.KernelThread();
    case OpFault(kind, va) => var r := vm.Fault(kind, va);
    case OpStore(k, va, x) => vm.Store(k, va, x);
    case OpDestroy(id) => vm.Destroy(id);
    case OpKpages(m) => var pa := vm.GetPpages(m);
  }

  /**
   In every run, with segments of any place and size and any request for
   pages, spaces stay disjoint and the TLB agrees with the translation, up to
   the first operation that breaks the order.
   */
  method Execute(vm: Vm, ops: seq<Op>) returns (n: nat)
    requires vm.Valid()
    modifies vm
    ensures vm.Valid() && n <= |ops|
    ensures n < |ops| ==> Possible(vm.s, ops[n]) && Breaks(vm.s, ops[n])
  {
    for k := 0 to |ops|
      invariant vm.Valid()
    {
      if Possible(vm.s, ops[k]) {
        if Breaks(vm.s, ops[k]) {
          return k;
        }
        Perform(vm, ops[k]);
      }
    }
    return |ops|;
  }
}
