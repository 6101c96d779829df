/** Alpha page tables: three levels, with 1024 entries to a table page. The levels are arrays indexed by
    the page number without its low 20, 10 and 0 bits, as the self-mapping window shows them. */
module PageTable {
  import opened Common

  const PAGESIZE: nat := 8192
  const PTES: nat := 1024
  const PTES2: nat := 0x10_0000
  const VPAGES: nat := 0x4000_0000
  const ADDRESSES: nat := 0x1_0000_0000_0000_0000
  const VAGAPBEG: nat := 0x400_0000_0000
  const VAGAPEND: nat := ADDRESSES - 0x400_0000_0000

  /** An entry: its low half, and the physical page number that is its high half. */
  datatype Pte = Pte(flags: bv32, pp: int)

  const KR: bv32 := 0x0101
  const KW: bv32 := 0x1101
  const UR: bv32 := 0x0901
  const UW: bv32 := 0x9901

  predicate Has(pte: Pte, mask: bv32) { pte.flags & mask == mask }

  datatype Mode = Knl | Usr

  function ProbeMask(mode: Mode, write: bool): bv32 {
    match mode
    case Knl => if write then KW else KR
    case Usr => if write then UW else UR
  }

  // Bits of an entry's low half: valid, and read and write enabled for the kernel and for the user.

  predicate IsValid(pte: Pte) { pte.flags & 0x0001 != 0 }
  predicate KernelReads(pte: Pte) { pte.flags & 0x0100 != 0 }
  predicate UserReads(pte: Pte) { pte.flags & 0x0800 != 0 }
  predicate KernelWrites(pte: Pte) { pte.flags & 0x1000 != 0 }
  predicate UserWrites(pte: Pte) { pte.flags & 0x8000 != 0 }

  /** What a probe asks of an entry: that it is valid and gives the kernel the right to read, and as the case may be
      the user, and also to write. */
  lemma ProbeRights(pte: Pte, mode: Mode, write: bool)
    ensures Has(pte, ProbeMask(mode, write)) <==>
              && IsValid(pte) && KernelReads(pte)
              && (mode.Usr? ==> UserReads(pte)) && (write ==> KernelWrites(pte) && (mode.Usr? ==> UserWrites(pte)))
    ensures Has(pte, KR) <==> IsValid(pte) && KernelReads(pte)
  {}

  /** On either side of the gap page numbers follow the addresses: from 0 below, and up to the last above. */
  lemma PageOf(a: nat)
    requires a < VAGAPBEG || VAGAPEND <= a < ADDRESSES
    ensures var page := if a < VAGAPBEG then VPage(a) else VPage(a) - VPAGES;
            var from := if a < VAGAPBEG then a else a - ADDRESSES;
            page * PAGESIZE <= from < (page + 1) * PAGESIZE
  {}

  /** The virtual page of an address: the sign-extended part of the address is dropped. */
  function VPage(a: nat): nat { a / PAGESIZE % VPAGES }

  class Tables {
    const l1: array<Pte>
    const l2: array<Pte>
    const l3: array<Pte>

    ghost predicate Valid()
      reads this
    {
      && l1.Length == PTES && l2.Length == PTES2 && l3.Length == VPAGES
      && l1 != l2 && l2 != l3 && l1 != l3
    }

    constructor (l1: array<Pte>, l2: array<Pte>, l3: array<Pte>)
      requires l1.Length == PTES && l2.Length == PTES2 && l3.Length == VPAGES && l1 != l2 && l2 != l3 && l1 != l3
      ensures Valid() && this.l1 == l1 && this.l2 == l2 && this.l3 == l3
    {
      this.l1, this.l2, this.l3 := l1, l2, l3;
    }

    /** A page may be touched with the rights in `mask` without a fault. */
    predicate Accessible(page: nat, mask: bv32)
      requires Valid() && page < VPAGES
      reads this, l1, l2, l3
    {
      Has(l1[page / PTES2], KR) && Has(l2[page / PTES], KR) && Has(l3[page], mask)
    }

    /** The way to a page leads over one entry of each level, the upper two of which the kernel has to be able to
        read. */
    lemma AccessibleIs(page: nat, mode: Mode, write: bool)
      requires Valid() && page < VPAGES
      ensures Accessible(page, ProbeMask(mode, write)) <==>
                var top, middle, bottom := l1[page / 0x10_0000], l2[page / 0x400], l3[page];
                && IsValid(top) && KernelReads(top) && IsValid(middle) && KernelReads(middle)
                && IsValid(bottom) && KernelReads(bottom)
                && (mode.Usr? ==> UserReads(bottom))
                && (write ==> KernelWrites(bottom) && (mode.Usr? ==> UserWrites(bottom)))
    {
      hide Has, ProbeMask;
      ProbeRights(l1[page / PTES2], Knl, false);
      ProbeRights(l2[page / PTES], Knl, false);
      ProbeRights(l3[page], mode, write);
    }

    /** Checks `npgs` pages from `page`; the upper levels are looked at again only where their index changes. */
    method CheckPages(page0: nat, npgs0: nat, mask: bv32) returns (ok: bool)
      requires Valid() && npgs0 > 0 && page0 + npgs0 <= VPAGES
      ensures ok <==> forall p :: page0 <= p < page0 + npgs0 ==> Accessible(p, mask)
    {
      hide Has;
      var page, npgs := page0, npgs0;
      while true
        invariant page0 <= page < page0 + npgs0 && npgs == page0 + npgs0 - page
        invariant forall p :: page0 <= p < page ==> Accessible(p, mask)
        decreases npgs
      {
        assert !Has(l1[page / PTES2], KR) ==> !Accessible(page, mask);
        if !Has(l1[page / PTES2], KR) { return false; }
        while true
          invariant page0 <= page < page0 + npgs0 && npgs == page0 + npgs0 - page
          invariant forall p :: page0 <= p < page ==> Accessible(p, mask)
          invariant Has(l1[page / PTES2], KR)
          decreases npgs
        {
          assert !Has(l2[page / PTES], KR) ==> !Accessible(page, mask);
          if !Has(l2[page / PTES], KR) { return false; }
          while true
            invariant page0 <= page < page0 + npgs0 && npgs == page0 + npgs0 - page
            invariant forall p :: page0 <= p < page ==> Accessible(p, mask)
            invariant Has(l1[page / PTES2], KR) && Has(l2[page / PTES], KR)
            decreases npgs
          {
            assert !Has(l3[page], mask) ==> !Accessible(page, mask);
            if !Has(l3[page], mask) { return false; }
            npgs := npgs - 1;
            if npgs == 0 { return true; }
            page := page + 1;
            if page % PTES == 0 { break; }
            SameTables(page);
          }
          if page % PTES2 == 0 { break; }
        }
      }
    }

    /** Touching any byte of the buffer is free of faults. */
    ghost predicate Touchable(size: nat, adrs: nat, mask: bv32)
      requires Valid()
      reads this, l1, l2, l3
    {
      forall a :: adrs <= a < adrs + size ==> Accessible(VPage(a), mask)
    }

    /** oz_hw_probe: true exactly when the buffer neither wraps nor spans the gap and every byte of it may be
        touched. */
    method Probe(size: nat, adrs: nat, mode: Mode, write: bool) returns (ok: bool)
      requires Valid() && adrs < ADDRESSES && size < 0x1_0000_0000
      ensures ok <==> size == 0 || (&& adrs + size <= ADDRESSES
                                    && !(adrs < VAGAPEND && adrs + size > VAGAPBEG)
                                    && Touchable(size, adrs, ProbeMask(mode, write)))
    {
      hide Tables.Accessible, Has;
      if size == 0 { return true; }
      var endaddr := (adrs + size - 1) % ADDRESSES;
      if endaddr < adrs { return false; }
      if adrs < VAGAPEND && endaddr >= VAGAPBEG { return false; }
      var page := VPage(adrs);
      var npgs := VPage(endaddr) - page + 1;
      PagesOfRange(adrs, size);
      ok := CheckPages(page, npgs, ProbeMask(mode, write));
      if ok {
        forall a | adrs <= a < adrs + size ensures Accessible(VPage(a), ProbeMask(mode, write)) {
          PageInRange(adrs, size, a);
        }
      } else {
        var p :| page <= p < page + npgs && !Accessible(p, ProbeMask(mode, write));
        var a := ByteOfPage(adrs, size, p);
      }
    }

    // Setting up the non-paged pool.

    /** How a page is mapped, if it is. */
    function Translate(page: nat): Option<Pte>
      requires Valid() && page < VPAGES
      reads this, l1, l2, l3
    {
      if Present(l1[page / PTES2]) && Present(l2[page / PTES]) && Present(l3[page]) then Some(l3[page]) else None
    }

    /** Looks for the first aligned block of unmapped pages. */
    method FindBlock(start: nat, count: nat, gran: nat, ghost somewhere: nat) returns (first: nat)
      requires Valid() && gran in {1, 8, 64, 512} && start % gran == 0
      requires start <= somewhere && somewhere % gran == 0 && somewhere + count <= VPAGES && Unmapped(somewhere, count)
      ensures start <= first <= somewhere && first % gran == 0 && Unmapped(first, count)
      ensures forall f :: start <= f < first && f % gran == 0 ==> !Unmapped(f, count)
    {
      first := start;
      while true
        invariant start <= first <= somewhere && first % gran == 0
        invariant forall f :: start <= f < first && f % gran == 0 ==> !Unmapped(f, count)
        decreases somewhere - first
      {
        var i := 0;
        while i < count && Translate(first + i) == None
          invariant 0 <= i <= count
          invariant forall k :: first <= k < first + i ==> Translate(k) == None
        {
          i := i + 1;
        }
        if i == count { return; }
        assert Translate(first + i) != None;
        NextMultiple(first, somewhere, gran);
        first := first + gran;
      }
    }

    ghost predicate Unmapped(first: nat, count: nat)
      requires Valid() && first + count <= VPAGES
      reads this, l1, l2, l3
    {
      forall k :: first <= k < first + count ==> Translate(k) == None
    }

    function Entry(slot: Slot): Pte
      requires Valid() && slot.i < if slot.L1? then PTES else PTES2
      reads this, l1, l2
    {
      match slot case L1(i) => l1[i] case L2(i) => l2[i]
    }

    /** The table pages made so far are the physical pages below `top`, counting down. */
    ghost predicate Made(made: seq<Slot>, top: int)
      requires Valid()
      reads this, l1, l2
    {
      forall m :: 0 <= m < |made| ==>
        && made[m].i < (if made[m].L1? then PTES else PTES2)
        && Entry(made[m]) == Pte(GKW, top - 1 - m)
    }

    /** No translation has changed, except that of `page`. */
    twostate predicate OnlyMaps(page: nat)
      requires Valid()
      reads this, l1, l2, l3
    {
      forall q: nat :: q < VPAGES && q != page ==> Translate(q) == old(Translate(q))
    }

    /** Table entries that were there are as they were; new ones are accounted for. */
    twostate predicate OnlyAdds(made: seq<Slot>)
      requires Valid()
      reads this, l1, l2
    {
      && (forall k: nat :: k < PTES ==>
            if old(Present(l1[k])) then l1[k] == old(l1[k]) else Present(l1[k]) ==> L1(k) in made)
      && (forall k: nat :: k < PTES2 ==> Present(l2[k]) ==> l2[k] == old(l2[k]) || L2(k) in made)
    }

    method NeedL1(page: nat, ghost made: seq<Slot>, ghost top: int, free: int)
      returns (free': int, ghost made': seq<Slot>)
      requires Valid() && page < VPAGES && Made(made, top) && free == top - |made|
      requires Hangs(made)
      modifies l1, l2
      ensures Made(made', top) && free' == top - |made'| && made <= made' && |made'| <= |made| + 1
      ensures Hangs(made')
      ensures Present(l1[page / PTES2]) && OnlyAdds(made')
      ensures old(Present(l1[page / PTES2])) ==> made' == made && l2[page / PTES] == old(l2[page / PTES])
      ensures forall q: nat :: q < VPAGES ==> Translate(q) == old(Translate(q))
      ensures old(Readable()) ==> Readable()
    {
      free', made' := free, made;
      var l1idx := page / PTES2;
      if !Present(l1[l1idx]) {
        free' := free' - 1;
        l1[l1idx] := Pte(GKW, free');
        forall k | l1idx * PTES <= k < l1idx * PTES + PTES { l2[k] := Pte(0, 0); }
        made' := made + [L1(l1idx)];
      }
    }

    method NeedL2(page: nat, ghost made: seq<Slot>, ghost top: int, free: int)
      returns (free': int, ghost made': seq<Slot>)
      requires Valid() && page < VPAGES && Made(made, top) && free == top - |made| && Present(l1[page / PTES2])
      modifies l2, l3
      ensures Made(made', top) && free' == top - |made'| && made <= made' && |made'| <= |made| + 1
      ensures made' != made ==> made' == made + [L2(page / PTES)]
      ensures Present(l2[page / PTES]) && OnlyAdds(made') && (old(Present(l2[page / PTES])) ==> made' == made)
      ensures forall q: nat :: q < VPAGES ==> Translate(q) == old(Translate(q))
      ensures old(Readable()) ==> Readable()
    {
      free', made' := free, made;
      var l2idx := page / PTES;
      if !Present(l2[l2idx]) {
        free' := free' - 1;
        l2[l2idx] := Pte(GKW, free');
        forall k | l2idx * PTES <= k < l2idx * PTES + PTES { l3[k] := Pte(0, 0); }
        made' := made + [L2(l2idx)];
      }
    }

    /** The tables made for the second level hang from the first. */
    ghost predicate Hangs(made: seq<Slot>)
      requires Valid() && forall m :: 0 <= m < |made| && made[m].L2? ==> made[m].i < PTES2
      reads this, l1
    {
      forall m :: 0 <= m < |made| && made[m].L2? ==> Present(l1[made[m].i / PTES])
    }

    lemma NothingHangs()
      requires Valid()
      ensures Hangs([])
    {}

    /** Maps one page, making the table pages it needs out of the physical pages below `free`. */
    method MapPage(page: nat, pp: int, gh: nat, ghost made: seq<Slot>, ghost top: int, free: int)
      returns (free': int, ghost made': seq<Slot>)
      requires Valid() && page < VPAGES && Made(made, top) && Hangs(made) && free == top - |made| && gh < 4
      modifies l1, l2, l3
      ensures Made(made', top) && Hangs(made') && free' == top - |made'| && made <= made' && |made'| <= |made| + 2
      ensures Translate(page) == Some(Pte(PoolFlags(gh), pp))
      ensures OnlyMaps(page) && OnlyAdds(made')
      ensures old(Readable()) ==> Readable()
      ensures Present(l1[page / PTES2]) && Present(l2[page / PTES])
      ensures |made'| - |made| <= NewTables(old(Present(l1[page / PTES2])), old(Present(l2[page / PTES])))
    {
      hide Has, Tables.Readable, Tables.Made;
      free', made' := NeedL1(page, made, top, free);
      free', made' := NeedL2(page, made', top, free');
      l3[page] := Pte(PoolFlags(gh), pp);
      PoolFlagsPresent(gh);
    }

    /** What the hardware wants of the tables themselves: kernel read rights. */
    ghost predicate Readable()
      requires Valid()
      reads this, l1, l2
    {
      && (forall k: nat :: k < PTES && Present(l1[k]) ==> Has(l1[k], KR))
      && (forall k: nat :: k < PTES2 && Present(l2[k]) ==> Has(l2[k], KR))
    }

    /** oz_hw_pool_init: puts the pool in the topmost aligned physical pages and the lowest aligned block of
        unmapped virtual pages after the kernel. */
    method PoolInit(required: nat, total: nat, kernelEnd: nat, ghost somewhere: nat)
      returns (count: nat, firstPhys: nat, firstVirt: nat, ghost made: seq<Slot>)
      requires Valid() && Count(required) <= total
      requires kernelEnd <= somewhere && somewhere % Gran(required) == 0 && somewhere + Count(required) <= VPAGES
      requires Unmapped(somewhere, Count(required))
      modifies l1, l2, l3
      ensures required <= count < required + Gran(required)
      ensures count % Gran(required) == 0 && firstPhys % Gran(required) == 0 && firstVirt % Gran(required) == 0
      ensures firstPhys + count <= total < firstPhys + count + Gran(required)
      ensures kernelEnd <= firstVirt && firstVirt + count <= VPAGES && old(Unmapped(firstVirt, count))
      ensures Maps(firstVirt, firstPhys, count, Hint(required)) && OnlyMapsBlock(firstVirt, count)
      ensures Made(made, firstPhys) && OnlyAdds(made) && |made| <= TableSpan(firstVirt, count)
      ensures old(Readable()) ==> forall q: nat :: firstVirt <= q < firstVirt + count ==> Accessible(q, KW)
    {
      var gran := Gran(required);
      count := Count(required);
      firstPhys := (total - count) / gran * gran;
      firstVirt := (kernelEnd + gran - 1) / gran * gran;
      Rounding(required, total - count, kernelEnd, somewhere);
      firstVirt := FindBlock(firstVirt, count, gran, somewhere);
      made := FillBlock(firstVirt, firstPhys, count, Hint(required));
      if Readable() { PoolAccessible(firstVirt, firstPhys, count, Hint(required)); }
    }

    /** A pool page may be written by the kernel. */
    lemma PoolAccessible(first: nat, phys: nat, count: nat, gh: nat)
      requires Valid() && first + count <= VPAGES && Maps(first, phys, count, gh) && Readable()
      ensures forall q: nat :: first <= q < first + count ==> Accessible(q, KW)
    {
      PoolFlagsPresent(gh);
      forall q: nat | first <= q < first + count ensures Accessible(q, KW) {
        assert Translate(q) == Some(Pte(PoolFlags(gh), phys + q - first));
      }
    }

    /** Page `first + i` is mapped to physical page `phys + i`, as a page of the pool. */
    ghost predicate Maps(first: nat, phys: nat, count: nat, gh: nat)
      requires Valid() && first + count <= VPAGES
      reads this, l1, l2, l3
    {
      forall q: nat :: first <= q < first + count ==> Translate(q) == Some(Pte(PoolFlags(gh), phys + q - first))
    }

    twostate predicate OnlyMapsBlock(first: nat, count: nat)
      requires Valid()
      reads this, l1, l2, l3
    {
      forall q: nat :: q < VPAGES && !(first <= q < first + count) ==> Translate(q) == old(Translate(q))
    }

    method FillBlock(first: nat, phys: nat, count: nat, gh: nat) returns (ghost made: seq<Slot>)
      requires Valid() && first + count <= VPAGES && gh < 4
      modifies l1, l2, l3
      ensures Maps(first, phys, count, gh) && OnlyMapsBlock(first, count)
      ensures Made(made, phys) && OnlyAdds(made) && |made| <= TableSpan(first, count)
      ensures old(Readable()) ==> Readable()
    {
      hide PoolFlags, TableSpan, Translate, NewTables, Tables.Readable, Tables.Hangs, Has, Present;
      made := [];
      NothingHangs();
      var free := phys;
      for i := 0 to count
        invariant Made(made, phys) && Hangs(made) && free == phys - |made|
        invariant OnlyAdds(made)
        invariant OnlyMapsBlock(first, i)
        invariant old(Readable()) ==> Readable()
        invariant Maps(first, phys, i, gh)
        invariant i > 0 ==> Present(l1[(first + i - 1) / PTES2]) && Present(l2[(first + i - 1) / PTES])
        invariant |made| <= TableSpan(first, i)
      {
        SpanGrows(first, i, Present(l1[(first + i) / PTES2]), Present(l2[(first + i) / PTES]));
        free, made := MapPage(first + i, phys + i, gh, made, phys, free);
      }
    }
  }

  /** As many table pages as a block could possibly need. */
  function TableSpan(first: nat, count: nat): nat {
    if count == 0 then 0
    else (first + count - 1) / PTES - first / PTES + (first + count - 1) / PTES2 - first / PTES2 + 2
  }

  lemma SpanGrows(first: nat, i: nat, haveL1: bool, haveL2: bool)
    requires i > 0 && (first + i) / PTES2 == (first + i - 1) / PTES2 ==> haveL1
    requires i > 0 && (first + i) / PTES == (first + i - 1) / PTES ==> haveL2
    ensures TableSpan(first, i) + NewTables(haveL1, haveL2) <= TableSpan(first, i + 1)
  {}

  /** The granularity hint: blocks of 8 to that power. */
  function Hint(required: nat): nat {
    if required >= 256 then 3 else if required >= 32 then 2 else if required >= 4 then 1 else 0
  }

  function Gran(required: nat): nat {
    match Hint(required) case 0 => 1 case 1 => 8 case 2 => 64 case _ => 512
  }

  /** The granularity is the largest that is no more than twice what is required. */
  lemma GranIs(required: nat)
    requires required > 0
    ensures var g := Gran(required);
            && g in {1, 8, 64, 512}
            && (g == 1 || g <= 2 * required) && (g == 512 || 2 * required < 8 * g)
  {}

  function Count(required: nat): nat {
    (required + Gran(required) - 1) / Gran(required) * Gran(required)
  }

  lemma Rounding(required: nat, room: nat, kernelEnd: nat, somewhere: nat)
    requires kernelEnd <= somewhere && somewhere % Gran(required) == 0
    ensures var g := Gran(required);
            && g in {1, 8, 64, 512}
            && required <= Count(required) < required + g && Count(required) % g == 0
            && room / g * g % g == 0 && room - g < room / g * g <= room
            && (kernelEnd + g - 1) / g * g % g == 0 && kernelEnd <= (kernelEnd + g - 1) / g * g <= somewhere
  {
    RoundUp(required, Gran(required));
    RoundDown(room, Gran(required));
    RoundUp(kernelEnd, Gran(required));
    NoMultipleBetween(kernelEnd, somewhere, Gran(required));
  }

  lemma RoundUp(a: nat, g: nat)
    requires g in {1, 8, 64, 512}
    ensures var up := (a + g - 1) / g * g; a <= up < a + g && up % g == 0
  {
    if g == 1 {} else if g == 8 {} else if g == 64 {} else {}
  }

  lemma RoundDown(a: nat, g: nat)
    requires g in {1, 8, 64, 512}
    ensures var down := a / g * g; a - g < down <= a && down % g == 0
  {
    if g == 1 {} else if g == 8 {} else if g == 64 {} else {}
  }

  lemma NoMultipleBetween(a: nat, b: nat, g: nat)
    requires g in {1, 8, 64, 512} && a <= b && b % g == 0
    ensures (a + g - 1) / g * g <= b
  {
    if g == 1 {} else if g == 8 {} else if g == 64 {} else {}
  }

  function NewTables(haveL1: bool, haveL2: bool): nat {
    (if haveL1 then 0 else 1) + if haveL1 && haveL2 then 0 else 1
  }

  /** The low half of a pool page's entry: the granularity hint is bits 5 and 6. */
  function PoolFlags(gh: nat): bv32 {
    GKW + if gh == 0 then 0 else if gh == 1 then 0x20 else if gh == 2 then 0x40 else 0x60
  }

  lemma PoolFlagsPresent(gh: nat)
    ensures PoolFlags(gh) & 1 != 0 && Has(Pte(PoolFlags(gh), 0), KW)
  {}

  /** A pool page is valid, the kernel may read and write it and the user may not, and the hint is in its place. */
  lemma PoolFlagsAre(gh: nat, pp: int)
    requires gh < 4
    ensures var pte := Pte(PoolFlags(gh), pp);
            && IsValid(pte) && KernelReads(pte) && KernelWrites(pte) && !UserReads(pte) && !UserWrites(pte)
            && (pte.flags >> 5) & 3 == gh as bv32
  {
    if gh == 0 {} else if gh == 1 {} else if gh == 2 {} else {}
  }

  /** An entry of the first or second level. */
  datatype Slot = L1(i: nat) | L2(i: nat)

  /** The software state, protection and global bits of a kernel page of the pool. */
  const GKW: bv32 := 0x0116_1111

  predicate Present(pte: Pte) { pte.flags & 1 != 0 }

  lemma NextMultiple(a: nat, b: nat, m: nat)
    requires m in {1, 8, 64, 512} && a % m == 0 && b % m == 0 && a < b
    ensures a + m <= b && (a + m) % m == 0
    ensures forall f :: a < f < a + m ==> f % m != 0
  {
    NextFits(a, b, m);
    forall f | a < f < a + m ensures f % m != 0 { NotMultiple(a, f, m); }
  }

  lemma NextFits(a: nat, b: nat, m: nat)
    requires m in {1, 8, 64, 512} && a % m == 0 && b % m == 0 && a < b
    ensures a + m <= b && (a + m) % m == 0
  {
    if m == 1 {} else if m == 8 {} else if m == 64 {} else {}
  }

  lemma NotMultiple(a: nat, f: nat, m: nat)
    requires m in {1, 8, 64, 512} && a % m == 0 && a < f < a + m
    ensures f % m != 0
  {
    if m == 1 {} else if m == 8 {} else if m == 64 {} else {}
  }

  lemma SameTables(page: nat)
    requires page > 0 && page % PTES != 0
    ensures (page - 1) / PTES == page / PTES && (page - 1) / PTES2 == page / PTES2
  {}

  /** On one side of the gap page numbers run on without a break. */
  lemma PagesOfRange(adrs: nat, size: nat)
    requires size > 0 && adrs + size <= ADDRESSES && (adrs >= VAGAPEND || adrs + size <= VAGAPBEG)
    ensures VPage(adrs) <= VPage(adrs + size - 1) < VPAGES
    ensures VPage(adrs + size - 1) - VPage(adrs) == (adrs + size - 1) / PAGESIZE - adrs / PAGESIZE
  {}

  lemma PageInRange(adrs: nat, size: nat, a: nat)
    requires adrs <= a < adrs + size && adrs + size <= ADDRESSES && (adrs >= VAGAPEND || adrs + size <= VAGAPBEG)
    ensures VPage(adrs) <= VPage(a) <= VPage(adrs + size - 1)
  {
    PagesOfRange(adrs, a - adrs + 1);
    PagesOfRange(a, adrs + size - a);
  }

  lemma ByteOfPage(adrs: nat, size: nat, p: nat) returns (a: nat)
    requires size > 0 && adrs + size <= ADDRESSES && (adrs >= VAGAPEND || adrs + size <= VAGAPBEG)
    requires VPage(adrs) <= p <= VPage(adrs + size - 1)
    ensures adrs <= a < adrs + size && VPage(a) == p
  {
    PagesOfRange(adrs, size);
    if p == VPage(adrs) {
      a := adrs;
    } else {
      a := (adrs / PAGESIZE + (p - VPage(adrs))) * PAGESIZE;
      PagesOfRange(adrs, a - adrs + 1);
    }
  }
}
