/**
 Translating a scatter-gather entry's `struct page` pointer to the linear-map address of its data:
 the 64-bit arithmetic of core-shims/usb.c and the arm64 configurations that userspace selects for it.
 */
module PageMap {
  import opened Bytes
  import opened Arithmetic

  const LAYOUT_LEGACY: u32 := 1
  const LAYOUT_COMPACT: u32 := 2

  datatype SgMemory = SgMemory(pageShift: u32, vaBits: u32, layout: u32)

  /** Start of the page-struct array, start of the linear map, and number of pages they describe. */
  datatype Bases = Bases(vmemmap: u64, direct: u64, maxPages: u64)

  /** Unsigned 64-bit wrap-around. */
  function Wrap(x: int): u64 { x % TWO64 }

  lemma WrapNegative(x: nat)
    requires 0 < x <= TWO64
    ensures Wrap(0 - x) == TWO64 - x
  {
    DivisionUnique(0 - x, TWO64, -1, TWO64 - x);
  }

  lemma WrapSmall(x: nat)
    requires x < TWO64
    ensures Wrap(x) == x
  {
    DivisionUnique(x, TWO64, 0, x);
  }

  // ----- the search for the page-struct order -----

  /** The least exponent below 12 whose power reaches `size`, else 12. */
  method FindOrder(size: u32) returns (order: nat)
    requires 0 < size <= 4096
    ensures order <= 12 && size <= Pow2(order)
    ensures order > 0 ==> Pow2(order - 1) < size
    ensures order == Order(size)
  {
    Pow2Values();
    order := 0;
    while order < 12
      invariant order <= 12 && (order > 0 ==> Pow2(order - 1) < size)
      invariant OrderFrom(size, 0) == OrderFrom(size, order)
    {
      if Pow2(order) >= size { break; }
      order := order + 1;
    }
  }

  function OrderFrom(size: u32, order: nat): nat
    requires order <= 12
    decreases 12 - order
  {
    if order == 12 || Pow2(order) >= size then order else OrderFrom(size, order + 1)
  }

  function Order(size: u32): nat { OrderFrom(size, 0) }

  lemma {:induction false} OrderFromReaches(size: u32, order: nat)
    requires 0 < size <= 4096 && order <= 12 && (order == 0 || Pow2(order - 1) < size)
    ensures var o := OrderFrom(size, order);
            order <= o <= 12 && size <= Pow2(o) && (o > 0 ==> Pow2(o - 1) < size)
    decreases 12 - order
  {
    hide Pow2;
    Pow2Values();
    if order < 12 && Pow2(order) < size {
      OrderFromReaches(size, order + 1);
    }
  }

  // ----- arm64 -----

  function MinBits(m: SgMemory): nat {
    if m.vaBits > 48 then (if m.pageShift == 14 then 47 else 48) else m.vaBits
  }

  predicate ShiftsOk(m: SgMemory) {
    (m.pageShift == 12 || m.pageShift == 14 || m.pageShift == 16) && 36 <= m.vaBits <= 52
  }

  function Direct(m: SgMemory): u64 { Wrap(0 - Pow2(m.vaBits)) }

  function LinearEnd(m: SgMemory): u64
    requires ShiftsOk(m)
  {
    Wrap(0 - Pow2(MinBits(m) - 1))
  }

  function MaxPages(m: SgMemory): u64
    requires ShiftsOk(m)
  {
    var span, page := Wrap(LinearEnd(m) - Direct(m)), Pow2(m.pageShift);
    QuotientRange(span, page);
    span / page
  }

  /** The guards and base computations of `core_sg_segment` on arm64. */
  function Arm64Bases(m: SgMemory, pageSize: u32): Option<Bases> {
    if !ShiftsOk(m) || pageSize == 0 || pageSize > 4096 then None
    else if m.layout == LAYOUT_LEGACY then
      if Order(pageSize) >= m.pageShift then None
      else
        OrderFromReaches(pageSize, 0);
        Some(Bases(Wrap(0 - Pow2(m.vaBits - m.pageShift + Order(pageSize))), Direct(m), MaxPages(m)))
    else if m.layout == LAYOUT_COMPACT then
      Some(Bases(Wrap(Wrap(0 - Pow2(30)) - Wrap(Times(MaxPages(m), pageSize))), Direct(m), MaxPages(m)))
    else None
  }

  /** From the bases on: the address of the entry's data, or a read failure. */
  function Translate(b: Bases, pageShift: u32, pageSize: u32, link: u64, offset: u32): Option<u64> {
    if link % 2 == 1 || link == 0 then None else
    var page := link - link % 4;
    if b.vmemmap == 0 || b.direct == 0 || pageSize == 0 || page < b.vmemmap || (page - b.vmemmap) % pageSize != 0
    then None else
    QuotientRange(page - b.vmemmap, pageSize);
    var pfn := (page - b.vmemmap) / pageSize;
    if pfn >= b.maxPages then None
    else Some(Wrap(b.direct + Wrap(Times(pfn, Pow2(pageShift))) + offset))
  }

  // ----- no unintended wrap -----

  lemma MapSizes(m: SgMemory)
    requires ShiftsOk(m)
    ensures TWO32 <= Pow2(MinBits(m) - 1) && 2 * Pow2(MinBits(m) - 1) <= Pow2(m.vaBits) <= 0x10_0000_0000_0000
  {
    var bits := MinBits(m);
    assert Pow2(bits) == 2 * Pow2(bits - 1);
    hide Pow2;
    Pow2Values();
    Pow2Mono(m.vaBits, 52);
    Pow2Mono(bits, m.vaBits);
    Pow2Mono(32, bits - 1);
  }

  /** The smallest size the kernel may have chosen for its addresses, where it was built for 52 bits. */
  predicate IsMinBits(m: SgMemory, bits: nat) {
    bits == if m.vaBits <= 48 then m.vaBits else if m.pageShift == 14 then 47 else 48
  }

  /** The linear map consists of whole pages, exactly as many as the kernel allows. */
  lemma LinearMapWhole(m: SgMemory, bits: nat)
    requires ShiftsOk(m) && IsMinBits(m, bits)
    ensures Direct(m) + Times(MaxPages(m), Pow2(m.pageShift)) == LinearEnd(m) == TWO64 - Pow2(bits - 1)
  {
    hide Pow2;
    LinearMapExact(m);
    var span, page := LinearEnd(m) - Direct(m), Pow2(m.pageShift);
    MaxPagesIs(m, span);
    WholePages(m, bits);
    hide MaxPages; hide LinearEnd; hide Direct;
    var n := Pow2(m.vaBits - m.pageShift) - Pow2(bits - 1 - m.pageShift);
    DivisionUnique(span, page, n, 0);
  }

  lemma WholePages(m: SgMemory, bits: nat)
    requires ShiftsOk(m) && IsMinBits(m, bits)
    ensures bits - 1 >= m.pageShift
    ensures Pow2(m.vaBits) - Pow2(bits - 1)
            == (Pow2(m.vaBits - m.pageShift) - Pow2(bits - 1 - m.pageShift)) * Pow2(m.pageShift)
    ensures Pow2(m.vaBits - m.pageShift) >= Pow2(bits - 1 - m.pageShift)
  {
    hide Pow2;
    Pow2Add(m.vaBits - m.pageShift, m.pageShift);
    Pow2Add(bits - 1 - m.pageShift, m.pageShift);
    Pow2Mono(bits - 1 - m.pageShift, m.vaBits - m.pageShift);
    Distribute(Pow2(m.vaBits - m.pageShift) - Pow2(bits - 1 - m.pageShift), Pow2(bits - 1 - m.pageShift),
               Pow2(m.pageShift));
  }

  /** Bounds of the linear map: no subtraction below zero except the intended two's complement ones. */
  lemma LinearMapExact(m: SgMemory)
    requires ShiftsOk(m)
    ensures 0 < Pow2(m.vaBits) < TWO64 && Direct(m) == TWO64 - Pow2(m.vaBits)
    ensures LinearEnd(m) == TWO64 - Pow2(MinBits(m) - 1)
    ensures Direct(m) < LinearEnd(m) && LinearEnd(m) + TWO32 <= TWO64
    ensures Times(MaxPages(m), Pow2(m.pageShift)) <= LinearEnd(m) - Direct(m)
  {
    LinearMapBounds(m);
    var span := LinearEnd(m) - Direct(m);
    MaxPagesIs(m, span);
    hide MaxPages;
    hide Pow2;
    QuotientRange(span, Pow2(m.pageShift));
  }

  lemma LinearMapBounds(m: SgMemory)
    requires ShiftsOk(m)
    ensures 0 < Pow2(m.vaBits) < TWO64 && Direct(m) == TWO64 - Pow2(m.vaBits)
    ensures LinearEnd(m) == TWO64 - Pow2(MinBits(m) - 1)
    ensures Direct(m) < LinearEnd(m) && LinearEnd(m) + TWO32 <= TWO64
  {
    hide Pow2; hide Wrap;
    MapSizes(m);
    WrapNegative(Pow2(m.vaBits));
    WrapNegative(Pow2(MinBits(m) - 1));
  }

  lemma MaxPagesIs(m: SgMemory, span: nat)
    requires ShiftsOk(m) && span < TWO64 && span == LinearEnd(m) - Direct(m)
    ensures MaxPages(m) == span / Pow2(m.pageShift)
  {
    hide Pow2;
    hide LinearEnd;
    hide Direct;
  }

  /** All page structs take at most 2^(bits - shift + order) bytes. */
  lemma PagesFit(m: SgMemory, pageSize: u32)
    requires ShiftsOk(m) && 0 < pageSize <= 4096
    ensures Order(pageSize) <= 12
    ensures Times(MaxPages(m), pageSize) <= Pow2(m.vaBits - m.pageShift + Order(pageSize)) <= 0x10_0000_0000_0000
  {
    hide Pow2;
    hide OrderFrom;
    LinearMapExact(m);
    OrderFromReaches(pageSize, 0);
    var rest, o, pages := m.vaBits - m.pageShift, Order(pageSize), MaxPages(m);
    hide MaxPages;
    Pow2Values();
    Pow2Add(rest, m.pageShift);
    Pow2Add(rest, o);
    Pow2Mono(rest + o, 52);
    MapSizes(m);
    Compare(pages, Pow2(rest), Pow2(m.pageShift));
    ProductBound(pages, Pow2(rest), pageSize, Pow2(o));
    Nonneg(pages, pageSize);
  }

  lemma GuardsOf(m: SgMemory, pageSize: u32)
    requires Arm64Bases(m, pageSize).Some?
    ensures ShiftsOk(m) && 0 < pageSize <= 4096
  {
  }

  lemma LegacyBases(m: SgMemory, pageSize: u32)
    requires Arm64Bases(m, pageSize).Some? && m.layout == LAYOUT_LEGACY
    ensures ShiftsOk(m)
    ensures var size := Pow2(m.vaBits - m.pageShift + Order(pageSize));
            size < TWO64 ==> Arm64Bases(m, pageSize) == Some(Bases(TWO64 - size, Direct(m), MaxPages(m)))
  {
    hide Pow2; hide MaxPages; hide OrderFrom; hide Direct; hide Wrap;
    var size := Pow2(m.vaBits - m.pageShift + Order(pageSize));
    if size < TWO64 { WrapNegative(size); }
  }

  lemma CompactBases(m: SgMemory, pageSize: u32)
    requires Arm64Bases(m, pageSize).Some? && m.layout != LAYOUT_LEGACY
    ensures ShiftsOk(m)
    ensures var size := Times(MaxPages(m), pageSize);
            size + Pow2(30) < TWO64 ==>
              Arm64Bases(m, pageSize) == Some(Bases(TWO64 - Pow2(30) - size, Direct(m), MaxPages(m)))
  {
    hide MaxPages; hide Times; hide Direct; hide Wrap;
    var size := Times(MaxPages(m), pageSize);
    Pow2Values();
    hide Pow2;
    if size + Pow2(30) < TWO64 {
      WrapNegative(Pow2(30));
      WrapSmall(size);
      WrapSmall(TWO64 - Pow2(30) - size);
    }
  }

  /** The page-struct array lies wholly below 2^64, in both layouts. */
  lemma BasesExact(m: SgMemory, pageSize: u32)
    requires Arm64Bases(m, pageSize).Some?
    ensures var b := Arm64Bases(m, pageSize).value;
            && b.direct == Direct(m) > 0 && b.maxPages == MaxPages(m)
            && 0 < b.vmemmap && b.vmemmap + Times(b.maxPages, pageSize) <= TWO64
            && b.vmemmap == if m.layout == LAYOUT_LEGACY then TWO64 - Pow2(m.vaBits - m.pageShift + Order(pageSize))
                            else TWO64 - Pow2(30) - Times(b.maxPages, pageSize)
  {
    hide Pow2; hide Times; hide MaxPages; hide Order; hide LinearEnd; hide Direct; hide Arm64Bases;
    GuardsOf(m, pageSize);
    Pow2Values();
    LinearMapExact(m);
    PagesFit(m, pageSize);
    if m.layout == LAYOUT_LEGACY { LegacyBases(m, pageSize); } else { CompactBases(m, pageSize); }
  }

  function PageStruct(b: Bases, pageSize: u32, pfn: nat): nat {
    b.vmemmap + Times(pfn, pageSize)
  }

  function PageAddress(b: Bases, m: SgMemory, pfn: nat): nat {
    b.direct + Times(pfn, Pow2(m.pageShift))
  }

  lemma TranslatedAt(b: Bases, m: SgMemory, pageSize: u32, link: u64, offset: u32, pfn: nat)
    requires b.vmemmap > 0 && b.direct > 0 && pageSize > 0 && pfn < b.maxPages
    requires link % 2 == 0 && link - link % 4 == PageStruct(b, pageSize, pfn)
    requires PageAddress(b, m, pfn) + offset < TWO64
    ensures Translate(b, m.pageShift, pageSize, link, offset) == Some(PageAddress(b, m, pfn) + offset)
  {
    hide Pow2;
    hide Times;
    hide Wrap;
    TimesDivides(pfn, pageSize);
    Nonneg(pfn, Pow2(m.pageShift));
    Nonneg(pfn, pageSize);
    WrapSmall(Times(pfn, Pow2(m.pageShift)));
    WrapSmall(PageAddress(b, m, pfn) + offset);
  }

  /**
   The page struct of an existing page translates to that page's linear address plus the offset, with no
   wrap-around anywhere, and the page itself lies below the end of the linear map.
   */
  lemma TranslationExact(m: SgMemory, pageSize: u32, pfn: nat, link: u64, offset: u32)
    requires Arm64Bases(m, pageSize).Some? && pfn < MaxPages(m)
    requires link % 2 == 0 && link - link % 4 == PageStruct(Arm64Bases(m, pageSize).value, pageSize, pfn)
    ensures var b := Arm64Bases(m, pageSize).value;
            && Translate(b, m.pageShift, pageSize, link, offset) == Some(PageAddress(b, m, pfn) + offset)
            && PageAddress(b, m, pfn) + Pow2(m.pageShift) <= LinearEnd(m)
            && PageAddress(b, m, pfn) + offset < TWO64
  {
    hide Pow2;
    hide Times;
    hide MaxPages;
    hide LinearEnd;
    hide Arm64Bases;
    hide Translate;
    var b := Arm64Bases(m, pageSize).value;
    var p := Pow2(m.pageShift);
    GuardsOf(m, pageSize);
    BasesExact(m, pageSize);
    LinearMapExact(m);
    TimesStep(pfn, MaxPages(m), p);
    assert PageAddress(b, m, pfn) + p <= LinearEnd(m);
    TranslatedAt(b, m, pageSize, link, offset, pfn);
  }

  /** Nothing but page structs of existing pages is ever translated. */
  lemma TranslationOnlyPages(m: SgMemory, pageSize: u32, link: u64, offset: u32) returns (pfn: nat)
    requires Arm64Bases(m, pageSize).Some?
    requires Translate(Arm64Bases(m, pageSize).value, m.pageShift, pageSize, link, offset).Some?
    ensures link % 2 == 0 && pfn < MaxPages(m)
    ensures link - link % 4 == PageStruct(Arm64Bases(m, pageSize).value, pageSize, pfn)
  {
    hide Arm64Bases; hide MaxPages; hide Direct; hide Wrap; hide Pow2; hide Order;
    var b := Arm64Bases(m, pageSize).value;
    BasesExact(m, pageSize);
    pfn := Divisible(b, m.pageShift, pageSize, link, offset);
  }

  lemma Divisible(b: Bases, pageShift: u32, pageSize: u32, link: u64, offset: u32) returns (pfn: nat)
    requires Translate(b, pageShift, pageSize, link, offset).Some?
    ensures link % 2 == 0 && pfn < b.maxPages && link - link % 4 == PageStruct(b, pageSize, pfn)
  {
    hide Wrap; hide Pow2;
    var x := link - link % 4 - b.vmemmap;
    QuotientRange(x, pageSize);
    DivMod(x, pageSize);
    pfn := x / pageSize;
  }

  /** What translates is exactly the page structs of existing pages. */
  lemma TranslatesExactlyPages(m: SgMemory, pageSize: u32, link: u64, offset: u32)
    requires Arm64Bases(m, pageSize).Some?
    ensures Translate(Arm64Bases(m, pageSize).value, m.pageShift, pageSize, link, offset).Some?
            <==> (link % 2 == 0
                  && exists pfn: nat :: (pfn < MaxPages(m)
                                         && link - link % 4 == PageStruct(Arm64Bases(m, pageSize).value, pageSize,
                                            pfn)))
  {
    hide Arm64Bases; hide Translate; hide PageStruct; hide MaxPages;
    GuardsOf(m, pageSize);
    var b := Arm64Bases(m, pageSize).value;
    if Translate(b, m.pageShift, pageSize, link, offset).Some? {
      var pfn := TranslationOnlyPages(m, pageSize, link, offset);
    } else if link % 2 == 0 {
      forall pfn: nat | pfn < MaxPages(m)
        ensures link - link % 4 != PageStruct(b, pageSize, pfn)
      {
        if link - link % 4 == PageStruct(b, pageSize, pfn) {
          TranslationExact(m, pageSize, pfn, link, offset);
          assert false;
        }
      }
    }
  }

  /** Different pages have different linear addresses. */
  lemma TranslationInjective(m: SgMemory, pageSize: u32, link: u64, other: u64, offset: u32)
    requires Arm64Bases(m, pageSize).Some?
    requires Translate(Arm64Bases(m, pageSize).value, m.pageShift, pageSize, link, offset).Some?
    requires Translate(Arm64Bases(m, pageSize).value, m.pageShift, pageSize, link, offset)
          == Translate(Arm64Bases(m, pageSize).value, m.pageShift, pageSize, other, offset)
    ensures link - link % 4 == other - other % 4
  {
    var i := TranslationOnlyPages(m, pageSize, link, offset);
    var j := TranslationOnlyPages(m, pageSize, other, offset);
    TranslationExact(m, pageSize, i, link, offset);
    TranslationExact(m, pageSize, j, other, offset);
    TimesDivides(i, Pow2(m.pageShift));
    TimesDivides(j, Pow2(m.pageShift));
    hide Arm64Bases;
    hide Translate;
    hide Pow2;
    hide Times;
  }

  // ----- configurations -----

  /** The kernel build options userspace looks at. */
  datatype KernelConfig = KernelConfig(
    arm64: bool, sparsememVmemmap: bool, swTags: bool, hwTags: bool,
    pages4k: bool, pages16k: bool, pages64k: bool, vaBits: Option<u32>)

  function Arm64Memory(config: KernelConfig, pageSize: u32, release: Option<(u32, u32)>): Option<SgMemory> {
    if release.None? then None else
    var (major, minor) := release.value;
    if major < 5 || (major == 5 && minor < 17) then None else
    var layout := if major > 6 || (major == 6 && minor >= 9) then LAYOUT_COMPACT else LAYOUT_LEGACY;
    if !config.arm64 || !config.sparsememVmemmap || config.swTags || config.hwTags then None
    else if config.vaBits.None? then None
    else
      var bits := config.vaBits.value;
      if pageSize == 4096 && config.pages4k && bits in {39, 48} then Some(SgMemory(12, bits, layout))
      else if pageSize == 16384 && config.pages16k && bits in {36, 47, 48} then Some(SgMemory(14, bits, layout))
      else if pageSize == 65536 && config.pages64k && bits in {42, 48, 52} then Some(SgMemory(16, bits, layout))
      else None
  }

  /** Page sizes of 4, 16 and 64 KiB, addresses of 36 to 52 bits, and two layouts; the older one needs small structs. */
  lemma BasesExistIff(m: SgMemory, structSize: u32)
    ensures Arm64Bases(m, structSize).Some?
            <==> && m.pageShift in {12, 14, 16} && 36 <= m.vaBits <= 52 && 0 < structSize <= 4096
                 && (m.layout == 2 || (m.layout == 1 && (m.pageShift > 12 || structSize <= 2048)))
  {
    hide Pow2; hide Order; hide MaxPages; hide Times; hide Wrap;
    Pow2Values();
    if 0 < structSize <= 4096 { OrderAtMost11Iff(structSize); }
  }

  /** A release at least as new as 5.17, and the newer layout from 6.9 on. */
  predicate NoEarlier(release: (u32, u32), major: u32, minor: u32) {
    release.0 > major || (release.0 == major && release.1 >= minor)
  }

  /**
   Userspace enables scatter-gather on arm64 exactly for releases from 5.17 on whose page structs are laid out as one
   array without pointer tags, with a page size and address size that the build options name; from 6.9 on it
   selects the compact layout.
   */
  lemma MemorySelected(config: KernelConfig, pageSize: u32, release: Option<(u32, u32)>)
    ensures var m := Arm64Memory(config, pageSize, release);
            && (m.Some? <==>
                  && release.Some? && NoEarlier(release.value, 5, 17)
                  && config.arm64 && config.sparsememVmemmap && !config.swTags && !config.hwTags
                  && config.vaBits.Some?
                  && var bits := config.vaBits.value;
                     || (pageSize == 4096 && config.pages4k && (bits == 39 || bits == 48))
                     || (pageSize == 16384 && config.pages16k && (bits == 36 || bits == 47 || bits == 48))
                     || (pageSize == 65536 && config.pages64k && (bits == 42 || bits == 48 || bits == 52)))
            && (m.Some? ==>
                  && m.value.vaBits == config.vaBits.value
                  && m.value.layout == (if NoEarlier(release.value, 6, 9) then 2 else 1)
                  && m.value.pageShift == (if pageSize == 4096 then 12 else if pageSize == 16384 then 14 else 16))
  {
  }

  lemma OrderAtMost11Iff(structSize: u32)
    requires 0 < structSize <= 4096
    ensures Order(structSize) <= 12 && (Order(structSize) <= 11 <==> structSize <= 2048)
  {
    hide Pow2; hide Order;
    Pow2Values();
    var o := OrderReached(structSize);
    if o <= 11 { Pow2Mono(o, 11); }
  }

  lemma OrderReached(structSize: u32) returns (o: nat)
    requires 0 < structSize <= 4096
    ensures o == Order(structSize) <= 12 && structSize <= Pow2(o) && (o > 0 ==> Pow2(o - 1) < structSize)
  {
    hide Pow2; hide OrderFrom;
    OrderFromReaches(structSize, 0);
    o := Order(structSize);
  }

  /**
   Every configuration userspace can return is accepted by the kernel side for every page-struct size
   it admits, except that 4 KiB pages under the old layout refuse page structs above 2 KiB.
   */
  lemma ConfigurationAccepted(config: KernelConfig, pageSize: u32, release: Option<(u32, u32)>, structSize: u32)
    requires Arm64Memory(config, pageSize, release).Some?
    ensures var m := Arm64Memory(config, pageSize, release).value;
            && Pow2(m.pageShift) == pageSize
            && (Arm64Bases(m, structSize).Some? <==>
                0 < structSize <= 4096 && !(m.layout == LAYOUT_LEGACY && m.pageShift == 12 && structSize > 2048))
  {
    hide Pow2; hide Order; hide MaxPages; hide Times; hide Wrap;
    Pow2Values();
    if 0 < structSize <= 4096 { OrderAtMost11Iff(structSize); }
  }
}
