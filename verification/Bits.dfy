/**
  Bitwise operators on unsigned machine words, defined bit by bit on natural numbers, and the
  address macros of src/CommonLib/inc/base.h that are built from them.
 */
module Bits {

  import opened Basics

  function Pow2(k: nat): (p: nat)
    ensures p > 0
  {
    if k == 0 then 1 else 2 * Pow2(k - 1)
  }

  function And(x: nat, y: nat): nat
  {
    if x == 0 || y == 0 then 0
    else 2 * And(x / 2, y / 2) + if x % 2 == 1 && y % 2 == 1 then 1 else 0
  }

  function Or(x: nat, y: nat): nat
    decreases x + y
  {
    if x == 0 then y else if y == 0 then x
    else 2 * Or(x / 2, y / 2) + if x % 2 == 1 || y % 2 == 1 then 1 else 0
  }

  function Xor(x: nat, y: nat): nat
    decreases x + y
  {
    if x == 0 then y else if y == 0 then x
    else 2 * Xor(x / 2, y / 2) + if x % 2 != y % 2 then 1 else 0
  }

  // ----- masks are remainders -----

  // The low k bits of x.
  function Low(x: nat, k: nat): nat
    decreases k
  {
    if k == 0 then 0 else 2 * Low(x / 2, k - 1) + x % 2
  }

  lemma RemainderIs(x: int, d: int, q: int, r: int)
    requires 0 <= r < d && x == q * d + r
    ensures x / d == q && x % d == r
  {
    var m := x / d - q;
    assert m * d == r - x % d;
    assert m >= 1 ==> m * d >= d;
    assert m <= -1 ==> m * d <= -d;
  }

  lemma {:induction false} LowIsRemainder(x: nat, k: nat)
    ensures Low(x, k) == x % Pow2(k) < Pow2(k)
    decreases k
  {
    if k > 0 {
      LowIsRemainder(x / 2, k - 1);
      Doubled(x, Pow2(k - 1));
    }
  }

  lemma Doubled(x: nat, p: nat)
    requires 0 < p
    ensures x % (2 * p) == 2 * ((x / 2) % p) + x % 2 < 2 * p
  {
    var q, low := (x / 2) / p, (x / 2) % p;
    assert x / 2 == q * p + low && q * (2 * p) == 2 * (q * p);
    RemainderIs(x, 2 * p, q, 2 * low + x % 2);
  }

  // x & (2^k - 1) is the remainder modulo 2^k.
  lemma {:induction false} AndLowMask(x: nat, k: nat)
    ensures And(x, Pow2(k) - 1) == Low(x, k)
    decreases k
  {
    if k > 0 {
      AndLowMask(x / 2, k - 1);
      assert (Pow2(k) - 1) / 2 == Pow2(k - 1) - 1 && (Pow2(k) - 1) % 2 == 1;
      if x == 0 { assert Low(0, k) == 2 * Low(0, k - 1); }
    }
  }

  // x & ~(2^k - 1), in words of w bits, rounds down to a multiple of 2^k.
  lemma {:induction false} AndHighMask(x: nat, w: nat, k: nat)
    requires k <= w && x < Pow2(w)
    ensures Pow2(k) <= Pow2(w) && And(x, Pow2(w) - Pow2(k)) == x - Low(x, k)
    decreases w
  {
    if w == k {
      WholeWord(x, k);
    } else {
      AndHighMask(x / 2, w - 1, if k == 0 then 0 else k - 1);
      var mask := Pow2(w) - Pow2(k);
      if k == 0 {
        assert mask / 2 == Pow2(w - 1) - 1 && mask % 2 == 1;
      } else {
        assert mask / 2 == Pow2(w - 1) - Pow2(k - 1) && mask % 2 == 0;
      }
      if x == 0 { WholeWord(0, k); }
    }
  }

  lemma {:induction false} WholeWord(x: nat, k: nat)
    requires x < Pow2(k)
    ensures Low(x, k) == x
    decreases k
  {
    if k > 0 { WholeWord(x / 2, k - 1); }
  }

  // Or-ing a number below 2^k into a multiple of 2^k adds it.
  lemma {:induction false} OrDisjoint(x: nat, y: nat, k: nat)
    requires Low(x, k) == 0 && y < Pow2(k)
    ensures Or(x, y) == x + y
    decreases k
  {
    if k > 0 && x > 0 && y > 0 {
      OrDisjoint(x / 2, y / 2, k - 1);
    }
  }

  // The same facts for a mask written as a number m == 2^k, in words of `top` == 2^w values.
  lemma MaskLaws(x: nat, y: nat, k: nat, m: nat, w: nat, top: nat)
    requires m == Pow2(k) && top == Pow2(w) && k <= w && x < top && y < m
    ensures And(x, m - 1) == x % m
    ensures m <= top && And(x, top - m) == x - x % m
    ensures Or(x - x % m, y) == x - x % m + y
  {
    AndLowMask(x, k);
    LowIsRemainder(x, k);
    AndHighMask(x, w, k);
    ClearedLow(x, k);
    OrDisjoint(x - x % m, y, k);
  }

  lemma {:induction false} ClearedLow(x: nat, k: nat)
    ensures Low(x, k) <= x && Low(x - Low(x, k), k) == 0
    decreases k
  {
    if k > 0 {
      ClearedLow(x / 2, k - 1);
      assert (x - Low(x, k)) / 2 == x / 2 - Low(x / 2, k - 1);
    }
  }

  // ----- base.h -----

  // ~((QWORD)(alig) - 1) is 2^64 - alig
  function AlignAddressLower(addr: nat, alig: nat): nat
    requires 0 < alig <= QWORD_SIZE
  {
    And(addr, QWORD_SIZE - alig)
  }

  function AlignAddressUpper(addr: nat, alig: nat): nat
    requires 0 < alig <= QWORD_SIZE
  {
    AlignAddressLower((addr + alig - 1) % QWORD_SIZE, alig)
  }

  function AddressOffset(addr: nat, alig: nat): nat
    requires 0 < alig
  {
    And(addr, alig - 1)
  }

  predicate IsAddressAligned(addr: nat, alig: nat)
    requires 0 < alig
  {
    AddressOffset(addr, alig) == 0
  }

  predicate IsInSameBoundary(addr: nat, size: nat, alig: nat)
    requires 0 < alig <= QWORD_SIZE
  {
    AlignAddressLower(addr, alig) == AlignAddressLower((addr + size - 1) % QWORD_SIZE, alig)
  }

  ghost predicate IsPowerOf2(n: nat)
  {
    exists k: nat :: n == Pow2(k)
  }

  lemma {:induction false} Pow2Order(j: nat, k: nat)
    ensures Pow2(j) < Pow2(k) <==> j < k
  {
    if k > 0 && j > 0 {
      Pow2Order(j - 1, k - 1);
    } else if j > 0 {
      Pow2Order(j - 1, 0);
    } else if k > 1 {
      Pow2Order(0, k - 1);
    }
  }

  lemma Pow2Values()
    ensures Pow2(64) == QWORD_SIZE && Pow2(32) == DWORD_SIZE && Pow2(28) == 0x1000_0000 && Pow2(16) == 0x1_0000
  {
    assert Pow2(8) == 0x100;
    assert Pow2(16) == 0x1_0000;
    assert Pow2(24) == 0x100_0000;
    assert Pow2(28) == 0x1000_0000;
    assert Pow2(32) == 0x1_0000_0000;
    assert Pow2(40) == 0x100_0000_0000;
    assert Pow2(48) == 0x1_0000_0000_0000;
    assert Pow2(56) == 0x100_0000_0000_0000;
    assert Pow2(64) == 0x1_0000_0000_0000_0000;
  }

  // AlignAddressLower gives the largest multiple at or below the address.
  lemma AlignLowerRoundsDown(addr: nat, alig: nat)
    requires IsPowerOf2(alig) && alig <= QWORD_SIZE && addr < QWORD_SIZE
    ensures AlignAddressLower(addr, alig) == addr - addr % alig
    ensures AddressOffset(addr, alig) == addr % alig
  {
    var k: nat :| alig == Pow2(k);
    Pow2Values();
    Pow2Order(64, k);
    AndHighMask(addr, 64, k);
    AndLowMask(addr, k);
    LowIsRemainder(addr, k);
  }

  // AlignAddressUpper gives the least multiple at or above the address, if that fits in 64 bits.
  lemma AlignUpperRoundsUp(addr: nat, alig: nat)
    requires IsPowerOf2(alig) && alig <= QWORD_SIZE && addr + alig - 1 < QWORD_SIZE
    ensures var r := AlignAddressUpper(addr, alig);
            addr <= r < addr + alig && r % alig == 0
  {
    var up := addr + alig - 1;
    RemainderIs(up, QWORD_SIZE, 0, up);
    AlignLowerRoundsDown(up, alig);
    IsMultiple(up, alig);
  }

  lemma IsMultiple(x: nat, d: nat)
    requires 0 < d
    ensures 0 <= x % d < d && x % d <= x && (x - x % d) % d == 0
  {
    assert x - x % d == (x / d) * d;
    RemainderIs(x - x % d, d, x / d, 0);
  }

  // The range lies inside one aligned region: no multiple of alig is strictly inside it.
  lemma SameBoundary(addr: nat, size: nat, alig: nat)
    requires IsPowerOf2(alig) && alig <= QWORD_SIZE && 0 < size && addr + size <= QWORD_SIZE
    ensures IsInSameBoundary(addr, size, alig) <==> addr % alig + size <= alig
  {
    var last := addr + size - 1;
    AlignLowerRoundsDown(addr, alig);
    AlignLowerRoundsDown(last, alig);
    SameRegion(addr, last, alig);
    RemainderIs(last, QWORD_SIZE, 0, last);
  }

  lemma SameRegion(first: nat, last: nat, d: nat)
    requires 0 < d && first <= last
    ensures first - first % d == last - last % d <==> first % d + (last - first) < d
  {
    if first % d + (last - first) < d {
      RemainderIs(last, d, first / d, first % d + (last - first));
    }
  }
}
