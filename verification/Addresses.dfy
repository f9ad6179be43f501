/**
 64-bit addresses, the index macros (include/virt_mem.h) and the direct map
 (DUMB_MAPPING_VIRT, i_phy_to_virt and i_virt_to_phy in sys/virt_mem.c).
 */
module Addresses {
  import opened PageTables
  import Words

  const PAGE: nat := 4096
  const TOP: nat := 0x1_0000_0000_0000_0000
  const PAGES: nat := 0x10_0000_0000              // 2^36 page numbers
  const BASE: nat := 0xFFFF_FFFF_F000_0000        // DUMB_MAPPING_VIRT

  /** PML4E_INDEX, PDPE_INDEX, PDE_INDEX and PT_INDEX. */
  function PageOf(a: nat): Vpn {
    Vpn(a / 0x80_0000_0000 % 512, a / 0x4000_0000 % 512, a / 0x20_0000 % 512, a / 0x1000 % 512)
  }

  /** Two addresses have the same four indices exactly when their 36-bit page numbers agree. */
  lemma PageOfNumber(a: nat, b: nat)
    ensures PageOf(a) == PageOf(b) <==> a / PAGE % PAGES == b / PAGE % PAGES
  {
    hide PageOf;
    Indices(a);
    Indices(b);
    Unpacked(PageOf(a), PageOf(b));
  }

  /** The number whose base-512 digits are the indices. */
  function Packed(v: Vpn): nat {
    ((v.pml4 * 512 + v.pdp) * 512 + v.pd) * 512 + v.pt
  }

  lemma Unpacked(u: Vpn, v: Vpn)
    ensures Packed(u) == Packed(v) <==> u == v
  {
    if Packed(u) == Packed(v) {
      LastDigit((u.pml4 * 512 + u.pdp) * 512 + u.pd, u.pt, (v.pml4 * 512 + v.pdp) * 512 + v.pd, v.pt);
      LastDigit(u.pml4 * 512 + u.pdp, u.pd, v.pml4 * 512 + v.pdp, v.pd);
      LastDigit(u.pml4, u.pdp, v.pml4, v.pdp);
    }
  }

  lemma LastDigit(m: nat, i: Ix, n: nat, j: Ix)
    ensures m * 512 + i == n * 512 + j <==> m == n && i == j
  {
  }

  /** Each index macro is one more division by 512. */
  lemma Shifts(a: nat)
    ensures a / 0x20_0000 == a / PAGE / 512
    ensures a / 0x4000_0000 == a / 0x20_0000 / 512
    ensures a / 0x80_0000_0000 == a / 0x4000_0000 / 512
  {
  }

  /** The page number is the four indices in base 512. */
  lemma Indices(a: nat)
    ensures a / PAGE % PAGES == Packed(PageOf(a))
  {
    Shifts(a);
    var n := a / PAGE;
    Digits4(n);
    Digits3(n / 512);
    Digits2(n / 512 / 512);
  }

  lemma Digits4(n: nat)
    ensures n % 0x10_0000_0000 == n / 512 % 0x800_0000 * 512 + n % 512
  {
    var q := n / 512;
    var h, r, l := q / 0x800_0000, q % 0x800_0000, n % 512;
    assert q == h * 0x800_0000 + r && n == q * 512 + l;
    Digits4Rest(n, h, r * 512 + l);
  }

  lemma Digits4Rest(n: nat, h: nat, t: nat)
    requires n == h * 0x10_0000_0000 + t && t < 0x10_0000_0000
    ensures n % 0x10_0000_0000 == t
  {
  }

  lemma Digits3(n: nat)
    ensures n % 0x800_0000 == n / 512 % 0x4_0000 * 512 + n % 512
  {
    var q := n / 512;
    var h, r, l := q / 0x4_0000, q % 0x4_0000, n % 512;
    assert q == h * 0x4_0000 + r && n == q * 512 + l;
    Digits3Rest(n, h, r * 512 + l);
  }

  lemma Digits3Rest(n: nat, h: nat, t: nat)
    requires n == h * 0x800_0000 + t && t < 0x800_0000
    ensures n % 0x800_0000 == t
  {
  }

  lemma Digits2(n: nat)
    ensures n % 0x4_0000 == n / 512 % 512 * 512 + n % 512
  {
    var q := n / 512;
    var h, r, l := q / 512, q % 512, n % 512;
    assert q == h * 512 + r && n == q * 512 + l;
    Digits2Rest(n, h, r * 512 + l);
  }

  lemma Digits2Rest(n: nat, h: nat, t: nat)
    requires n == h * 0x4_0000 + t && t < 0x4_0000
    ensures n % 0x4_0000 == t
  {
  }

  /** i_phy_to_virt of frame p, in 64-bit arithmetic. */
  function DirectAddr(p: nat): nat {
    (p * PAGE + BASE) % TOP
  }

  /** The page at which frame p is mapped: the last 2^28 bytes of the address space. */
  function DirectPage(p: nat): Vpn {
    Vpn(511, 511, (384 + p / 512) % 512, p % 512)
  }

  /** v lies in the part of the address space that the direct map fills. */
  predicate InWindow(v: Vpn) {
    v.pml4 == 511 && v.pdp == 511 && v.pd >= 384
  }

  lemma DirectInWindow(p: nat)
    ensures p < FRAMES ==> InWindow(DirectPage(p))
  {
  }

  lemma DirectAddrPage(p: nat)
    requires p < FRAMES
    ensures DirectAddr(p) == 0xFFFF_FFFF_F000_0000 + p * 4096 && DirectAddr(p) % PAGE == 0
    ensures PageOf(DirectAddr(p)) == DirectPage(p)
  {
    var a := BASE + p * PAGE;
    var n := 0x10_0000_0000_0000 - FRAMES + p;
    assert a == n * PAGE && a < TOP;
    Shifts(a);
    assert a / PAGE == n;
    var q := p / 512;
    assert n / 512 == 0x800_0000_0000 - 128 + q;
    assert n / 512 / 512 == 0x4_0000_0000 - 1;
    assert n / 512 / 512 / 512 == 0x200_0000 - 1;
  }

  lemma DirectPageInjective(p: nat, q: nat)
    requires p < FRAMES && q < FRAMES
    ensures DirectPage(p) == DirectPage(q) <==> p == q
  {
  }

  /** The frame of i_virt_to_phy of a direct address, in 64-bit arithmetic. */
  function FrameOfAddr(a: nat): nat {
    (a + TOP - BASE) % TOP / PAGE
  }

  lemma VirtPhyRoundTrip(p: nat)
    requires p < FRAMES
    ensures FrameOfAddr(DirectAddr(p)) == p
  {
  }

  // ---- The same on machine words ----

  /** On every 64-bit word the index macros give the four indices of PageOf. */
  lemma IndexMacros(x: bv64)
    ensures var v := PageOf(Words.Value(x));
            && v.pml4 == Words.Value((x >> 39) & 0x1FF) && v.pdp == Words.Value((x >> 30) & 0x1FF)
            && v.pd == Words.Value((x >> 21) & 0x1FF) && v.pt == Words.Value((x >> 12) & 0x1FF)
  {
    hide Words.Value, Words.Shr9, Words.Shr12, Words.And;
    Words.ShiftValues(x);
    Shifts(Words.Value(x));
    Words.LowNine(Words.Shr12(x));
    Words.LowNine(Words.Shr9(Words.Shr12(x)));
    Words.LowNine(Words.Shr9(Words.Shr9(Words.Shr12(x))));
    Words.LowNine(Words.Shr9(Words.Shr9(Words.Shr9(Words.Shr12(x)))));
    Words.MacroForms(x);
  }

  /** The `|` and `+` forms of a direct address are the same word exactly for addresses below 2^28. */
  lemma OrIsAdd(p: bv64)
    ensures p | 0xFFFF_FFFF_F000_0000 == p + 0xFFFF_FFFF_F000_0000 <==> p < 0x1000_0000
  {
  }

  /** And exactly then does subtracting give back what the `|` form was made from. */
  lemma OrRoundTrip(p: bv64)
    ensures (p | 0xFFFF_FFFF_F000_0000) - 0xFFFF_FFFF_F000_0000 == p <==> p < 0x1000_0000
  {
  }

  /** An entry is its frame address and its low twelve bits, and setting the address keeps the bits. */
  lemma EntrySplits(e: bv64, p: bv64)
    requires p & 0xFFF == 0
    ensures (e & 0xFFFF_FFFF_FFFF_F000) | (e & 0xFFF) == e
    ensures (p | 1 | 2 | 4) & 0xFFFF_FFFF_FFFF_F000 == p && (p | 1 | 2 | 4) & 0xFFF == 7
    ensures (p | (e & 0xFFF)) & 0xFFFF_FFFF_FFFF_F000 == p && (p | (e & 0xFFF)) & 0xFFF == e & 0xFFF
  {
  }

  /** Adding and deleting attributes keep the address, and do to the bits what they say. */
  lemma Attributes(e: bv64, attribute: bv64)
    requires attribute < 0x1000
    ensures (e | attribute) & 0xFFFF_FFFF_FFFF_F000 == e & 0xFFFF_FFFF_FFFF_F000
    ensures (e & !attribute) & 0xFFFF_FFFF_FFFF_F000 == e & 0xFFFF_FFFF_FFFF_F000
    ensures (e | attribute) & attribute == attribute && (e & !attribute) & attribute == 0
  {
  }
}
