/**
  Addresses and pages (src/jtag.h, src/jtag2rw.cc): page sizes are powers of two, and the
  start of a page is found by clearing bits.
 */
module Pages {
  import opened Bytes

  /** A power of two, as all page sizes are. */
  predicate PageSize(p: nat) {
    p == 1 || (p > 1 && p % 2 == 0 && PageSize(p / 2))
  }

  // ---------- multiples ----------

  /** A multiple of p. */
  predicate Aligned(a: nat, p: nat)
    requires p > 0
  {
    a == 0 || (a >= p && Aligned(a - p, p))
  }

  /** The start of the page of an address. */
  function PageOf(addr: nat, p: nat): (base: nat)
    requires p > 0
    ensures base <= addr < base + p && Aligned(base, p)
  {
    if addr < p then 0 else PageOf(addr - p, p) + p
  }

  /** An address at which a page of a memory starts. */
  predicate IsPage(base: nat, p: nat, size: nat)
    requires p > 0
  {
    Aligned(base, p) && base + p <= size
  }

  lemma {:induction false} PagesApart(a: nat, b: nat, p: nat)
    requires p > 0 && Aligned(a, p) && Aligned(b, p) && a < b
    ensures a + p <= b
  {
    if a > 0 {
      PagesApart(a - p, b - p, p);
    }
  }

  /** An address has one page only. */
  lemma {:induction false} PageIsUnique(a: nat, base: nat, p: nat)
    requires p > 0 && Aligned(base, p) && base <= a < base + p
    ensures PageOf(a, p) == base
  {
    if base > 0 {
      PageIsUnique(a - p, base - p, p);
    }
  }

  /** From one page to the next, in a memory of whole pages. */
  lemma NextPage(base: nat, p: nat, size: nat)
    requires p > 0 && Aligned(base, p) && Aligned(size, p) && base < size
    ensures IsPage(base, p, size) && Aligned(base + p, p)
  {
    PagesApart(base, size, p);
  }

  /** A page that starts inside a memory of whole pages ends inside it. */
  lemma PageFits(a: nat, p: nat, size: nat)
    requires p > 0 && Aligned(size, p) && a < size
    ensures IsPage(PageOf(a, p), p, size)
  {
    PagesApart(PageOf(a, p), size, p);
  }

  // ---------- the mask ----------

  /** Bitwise and of two numbers. */
  function And(a: nat, b: nat): (r: nat)
    decreases a
  {
    if a == 0 then 0 else (if a % 2 == 1 && b % 2 == 1 then 1 else 0) + 2 * And(a / 2, b / 2)
  }

  lemma AndStep(a: nat, b: nat)
    ensures And(a, b) == (if a % 2 == 1 && b % 2 == 1 then 1 else 0) + 2 * And(a / 2, b / 2)
  {
    assert And(0, b / 2) == 0;
  }

  lemma AndTwice(a: nat, b: nat)
    ensures And(a, 2 * b) == 2 * And(a / 2, b)
  {
    assert (2 * b) % 2 == 0 && (2 * b) / 2 == b;
    AndStep(a, 2 * b);
  }

  function Power(n: nat): (p: nat)
    ensures p > 0
  {
    if n == 0 then 1 else 2 * Power(n - 1)
  }

  lemma {:induction false} AndOnes(a: nat, n: nat)
    requires a < Power(n)
    ensures And(a, Power(n) - 1) == a
    decreases n
  {
    if n > 0 {
      var ones := Power(n) - 1;
      assert ones % 2 == 1 && ones / 2 == Power(n - 1) - 1;
      AndOnes(a / 2, n - 1);
      AndStep(a, ones);
    }
  }

  lemma {:induction false} PageOfHalf(a: nat, p: nat)
    requires p > 0
    ensures PageOf(a, 2 * p) == 2 * PageOf(a / 2, p)
    decreases a
  {
    if a >= 2 * p {
      assert (a - 2 * p) / 2 == a / 2 - p;
      PageOfHalf(a - 2 * p, p);
    }
  }

  /** Clearing the bits below a power of two rounds down to a multiple. */
  lemma {:induction false} MaskRoundsDown(a: nat, n: nat, p: nat)
    requires PageSize(p) && p <= Power(n) && a < Power(n)
    ensures And(a, Power(n) - p) == PageOf(a, p)
    decreases n
  {
    if p == 1 {
      AndOnes(a, n);
    } else if n > 0 {
      var q, h := Power(n - 1), p / 2;
      PageOfHalf(a, h);
      MaskRoundsDown(a / 2, n - 1, h);
      AndTwice(a, q - h);
      assert p == 2 * h && Power(n) - p == 2 * (q - h);
    }
  }

  lemma WordPower()
    ensures Power(32) == 0x1_0000_0000
  {
    assert Power(8) == 0x100;
    assert Power(16) == 0x1_0000;
    assert Power(24) == 0x100_0000;
  }

  /** The page address as the program computes it, on words of 32 bits: addr & ~(pageSize - 1). */
  lemma MaskIsPageOf(addr: uint32, p: uint32)
    requires PageSize(p)
    ensures And(addr, 0xffff_ffff - (p - 1)) == PageOf(addr, p)
  {
    WordPower();
    MaskRoundsDown(addr, 32, p);
  }

  /** The address of a page, as page_addr computes it. */
  method PageAddr(addr: uint32, p: uint32) returns (base: nat)
    requires PageSize(p)
    ensures base == PageOf(addr, p)
  {
    MaskIsPageOf(addr, p);
    base := And(addr, 0xffff_ffff - (p - 1));
  }

  lemma AndTwiceAndOne(a: nat, b: nat)
    ensures And(a, 2 * b + 1) == a % 2 + 2 * And(a / 2, b)
  {
    assert (2 * b + 1) % 2 == 1 && (2 * b + 1) / 2 == b;
    AndStep(a, 2 * b + 1);
  }

  /** The number with x as its last n bits, and h before them. */
  function Cat(n: nat, h: nat, x: nat): nat {
    if n == 0 then h else 2 * Cat(n - 1, h, x / 2) + x % 2
  }

  /** The mask with n bits set, and m before them. */
  function Ones(n: nat, m: nat): nat {
    if n == 0 then m else 2 * Ones(n - 1, m) + 1
  }

  lemma TwiceProduct(h: nat, q: nat)
    ensures h * (2 * q) == 2 * (h * q)
  {
  }

  lemma {:induction false} CatValue(n: nat, h: nat, x: nat)
    requires x < Power(n)
    ensures Cat(n, h, x) == h * Power(n) + x
  {
    if n > 0 {
      CatValue(n - 1, h, x / 2);
      TwiceProduct(h, Power(n - 1));
    }
  }

  /** And with such a mask keeps the last bits. */
  lemma {:induction false} AndKeepsLast(n: nat, h: nat, x: nat, m: nat)
    ensures And(Cat(n, h, x), Ones(n, m)) == Cat(n, And(h, m), x)
  {
    if n > 0 {
      AndKeepsLast(n - 1, h, x / 2, m);
      AndTwiceAndOne(Cat(n, h, x), Ones(n - 1, m));
      assert Cat(n, h, x) / 2 == Cat(n - 1, h, x / 2) && Cat(n, h, x) % 2 == x % 2;
    }
  }

  /** The last sixteen bits of an address, when the bits before them are masked away. */
  lemma LastSixteen(h: nat, x: nat)
    requires x < 0x1_0000 && And(h, 0xff68) == 0
    ensures And(h * 0x1_0000 + x, 0xff68_ffff) == x
  {
    assert Power(8) == 0x100 && Power(16) == 0x1_0000;
    assert Ones(8, 0xff68) == 0xff_68ff && Ones(16, 0xff68) == 0xff68_ffff;
    CatValue(16, h, x);
    CatValue(16, 0, x);
    AndKeepsLast(16, h, x, 0xff68);
  }
}
