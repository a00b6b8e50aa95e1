/** The first-level translation table set up by `init_tlb`
    (recovery/src/cache.c): 4096 one-megabyte section descriptors, of which
    four ranges are filled with identity mappings. Whether the build defines
    `CONFIG_SHADOW` is the parameter `shadow`; it moves RAM to address 0 and
    the static bus up to 0x800 MB. */
module Mmu {

  /** Descriptor type bits 1:0 = 2: a section entry. */
  const SectionEntry: bv32 := 2
  /** The C (cacheable) and B (bufferable) bits, 3:2. */
  const CacheAndBuffer: bv32 := 3 << 2
  /** The access permission bits 11:10 = 3: unrestricted access. */
  const FullAccess: bv32 := 3 << 10
  /** The number of table entries: one per megabyte of the 4 GB space. */
  const Sections: nat := 0x1000

  /** The section descriptor written at index `i`: a section entry in domain
      0 with unrestricted access, cacheable and bufferable or not, mapping
      the megabyte at `i` to itself. Bits 4, 9 and 19:12 are clear. The source shifts a signed `int`, which
      overflows for `i >= 0x800`; the descriptor is the 32-bit pattern that
      shift leaves. */
  function Descriptor(i: nat, cached: bool): (d: bv32)
    requires i < Sections
    ensures d >> 20 == i as bv32
    ensures d & 3 == 2
    ensures d & 0xC == (if cached then 0xC else 0)
    ensures d & 0x1E0 == 0
    ensures (d >> 10) & 3 == 3
    ensures d & 0xFF210 == 0
  {
    var attrs := SectionEntry | (if cached then CacheAndBuffer else 0) | FullAccess;
    attrs | ((i as bv32) << 20)
  }

  /** The descriptor is the source's literal word: 0xC0E for a cacheable
      range and 0xC02 otherwise, with the index in bits 31:20. */
  lemma DescriptorWord(i: nat, cached: bool)
    requires i < Sections
    ensures Descriptor(i, cached) == ((i as bv32) << 20) | (if cached then 0xC0E else 0xC02)
  {
  }

  /** A range of table indices `lo .. hi - 1` and whether it is mapped
      cacheable. */
  datatype Region = Region(lo: nat, hi: nat, cached: bool)

  /** The four ranges in the order the source fills them: RAM, static bus,
      NAND controller registers, I/O. They are pairwise disjoint and end
      below 0xE00, so the fill touches 0xE00 entries at most and writes each
      at most once. */
  function Layout(shadow: bool): (l: seq<Region>)
    ensures |l| == 4
    ensures forall k :: 0 <= k < 4 ==> l[k].lo < l[k].hi <= 0xE00
    ensures forall k, k' :: 0 <= k < k' < 4 ==> l[k].hi <= l[k'].lo || l[k'].hi <= l[k].lo
    ensures l[0].cached && l[1].cached && !l[2].cached && !l[3].cached
  {
    if shadow then
      [Region(0x000, 0x100, true), Region(0x800, 0xA80, true),
       Region(0xAC0, 0xB00, false), Region(0xC00, 0xE00, false)]
    else
      [Region(0x800, 0x900, true), Region(0x000, 0x280, true),
       Region(0x2C0, 0x300, false), Region(0xC00, 0xE00, false)]
  }

  /** Whether index `i` lies in one of the four ranges. */
  predicate Mapped(shadow: bool, i: nat) {
    exists k :: 0 <= k < 4 && Layout(shadow)[k].lo <= i < Layout(shadow)[k].hi
  }

  /** One of the four loops: write the descriptor of every index in
      `lo .. hi - 1`, and nothing else. */
  method FillRange(tlb: seq<bv32>, lo: nat, hi: nat, cached: bool) returns (out: seq<bv32>)
    requires lo <= hi <= |tlb| && hi <= Sections
    ensures |out| == |tlb|
    ensures forall i :: lo <= i < hi ==> out[i] == Descriptor(i, cached)
    ensures forall i :: 0 <= i < |tlb| && !(lo <= i < hi) ==> out[i] == tlb[i]
  {
    out := tlb;
    var i := lo;
    while i < hi
      invariant lo <= i <= hi && |out| == |tlb|
      invariant forall j :: lo <= j < i ==> out[j] == Descriptor(j, cached)
      invariant forall j :: 0 <= j < |tlb| && !(lo <= j < i) ==> out[j] == tlb[j]
    {
      out := out[i := Descriptor(i, cached)];
      i := i + 1;
    }
  }

  /** `init_tlb`: every index of each range holds that range's descriptor,
      and every index outside all four keeps its earlier contents. */
  method InitTlb(tlb: seq<bv32>, shadow: bool) returns (out: seq<bv32>)
    requires |tlb| >= 0xE00
    ensures |out| == |tlb|
    ensures forall k, i :: 0 <= k < 4 && Layout(shadow)[k].lo <= i < Layout(shadow)[k].hi ==>
      out[i] == Descriptor(i, Layout(shadow)[k].cached)
    ensures forall i :: 0 <= i < |tlb| && !Mapped(shadow, i) ==> out[i] == tlb[i]
  {
    var l := Layout(shadow);
    var ram := FillRange(tlb, l[0].lo, l[0].hi, l[0].cached);
    var bus := FillRange(ram, l[1].lo, l[1].hi, l[1].cached);
    var nand := FillRange(bus, l[2].lo, l[2].hi, l[2].cached);
    out := FillRange(nand, l[3].lo, l[3].hi, l[3].cached);
  }
}
