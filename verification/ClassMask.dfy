/** Class ids and class masks: bit `id - 1` of a mask stands for class `id`. */
module ClassMask {
  import opened Arithmetic
  import opened Wire

  const FIRST_PLAYABLE: nat := 1
  const LAST_PLAYABLE: nat := 16
  const PLAYABLE_MASK: uint32 := 0xffff

  function Pow2(n: nat): (r: nat)
    ensures r > 0
  {
    if n == 0 then 1 else 2 * Pow2(n - 1)
  }

  predicate IsPlayableClassId(id: uint32) {
    FIRST_PLAYABLE <= id <= LAST_PLAYABLE
  }

  /** No bit outside the low sixteen. */
  predicate IsPlayableClassMask(mask: uint32) {
    mask / (PLAYABLE_MASK + 1) == 0
  }

  /** Bit `id - 1` of the mask. */
  predicate HasBit(mask: uint32, id: nat)
    requires 1 <= id <= 32
  {
    mask / Pow2(id - 1) % 2 == 1
  }

  predicate HasClass(mask: uint32, id: uint32) {
    IsPlayableClassId(id) && HasBit(mask, id)
  }

  // ---------- Masks and sets of classes ----------

  /** The mask of the classes up to `n`. */
  function MaskUpTo(classes: set<nat>, n: nat): nat {
    if n == 0 then 0 else MaskUpTo(classes, n - 1) + (if n in classes then Pow2(n - 1) else 0)
  }

  /** The mask of a set of class ids. */
  function MaskOf(classes: set<nat>): uint32 {
    TwoTo32();
    MaskBound(classes, 32);
    MaskUpTo(classes, 32)
  }

  lemma {:induction false} TwoTo32()
    ensures Pow2(16) == 0x1_0000 && Pow2(32) == 0x1_0000_0000
  {
    assert Pow2(8) == 0x100;
    assert Pow2(16) == 0x1_0000;
    assert Pow2(24) == 0x100_0000;
  }

  lemma {:induction false} MaskBound(classes: set<nat>, n: nat)
    ensures MaskUpTo(classes, n) < Pow2(n)
  {
    if n > 0 {
      MaskBound(classes, n - 1);
    }
  }

  lemma {:induction false} Pow2Adds(a: nat, b: nat)
    ensures Pow2(a + b) == Pow2(a) * Pow2(b)
  {
    if b > 0 {
      Pow2Adds(a, b - 1);
    }
  }

  /** Adding an even multiple of the divisor does not change the last bit of the quotient. */
  lemma {:induction false} EvenMultiple(x: nat, p: nat, k: nat)
    requires p > 0
    ensures (x + p * (2 * k)) / p % 2 == x / p % 2
  {
    var q, r := x / p, x % p;
    assert x + p * (2 * k) == p * (q + 2 * k) + r;
    QuotientIs(x + p * (2 * k), p, q + 2 * k, r);
  }

  /** The bit of the divisor itself. */
  lemma {:induction false} TopBit(low: nat, p: nat, has: bool)
    requires low < p
    ensures (low + (if has then p else 0)) / p % 2 == 1 <==> has
  {
    QuotientIs(low + (if has then p else 0), p, if has then 1 else 0, low);
  }

  /** A higher power of two is an even multiple of a lower one. */
  lemma {:induction false} HigherPower(n: nat, id: nat)
    requires 1 <= id < n
    ensures Pow2(n - 1) == Pow2(id - 1) * (2 * Pow2(n - 1 - id))
  {
    Pow2Adds(id - 1, n - id);
    assert Pow2(n - id) == 2 * Pow2(n - 1 - id);
  }

  lemma {:induction false} HasBitUpTo(classes: set<nat>, n: nat, id: nat)
    requires 1 <= id <= n
    ensures MaskUpTo(classes, n) / Pow2(id - 1) % 2 == 1 <==> id in classes
  {
    hide Pow2;
    var low, p := MaskUpTo(classes, n - 1), Pow2(id - 1);
    if id == n {
      MaskBound(classes, n - 1);
      TopBit(low, p, n in classes);
    } else {
      HasBitUpTo(classes, n - 1, id);
      if n in classes {
        HigherPower(n, id);
        EvenMultiple(low, p, Pow2(n - 1 - id));
      }
    }
  }

  /** The bits of a mask are its members. */
  lemma {:induction false} HasBitOfMask(classes: set<nat>, id: nat)
    requires 1 <= id <= 32
    ensures HasBit(MaskOf(classes), id) <==> id in classes
  {
    HasBitUpTo(classes, 32, id);
  }

  lemma {:induction false} HasClassOfMask(classes: set<nat>, id: uint32)
    ensures HasClass(MaskOf(classes), id) <==> 1 <= id <= 16 && id in classes
  {
    hide MaskOf, HasBit;
    if 1 <= id <= 16 {
      HasBitOfMask(classes, id);
    }
  }

  /** Every mask is that of the classes its bits name. */
  lemma {:induction false} EveryMaskIsOfASet(mask: uint32) returns (classes: set<nat>)
    ensures forall id :: id in classes ==> 1 <= id <= 32
    ensures MaskOf(classes) == mask
  {
    classes := set id: nat | 1 <= id <= 32 && HasBit(mask, id);
    MaskOfBits(mask, classes, 32);
    TwoTo32();
  }

  lemma {:induction false} MaskOfBits(mask: uint32, classes: set<nat>, n: nat)
    requires n <= 32 && forall id: nat :: 1 <= id <= 32 ==> (id in classes <==> HasBit(mask, id))
    ensures MaskUpTo(classes, n) == mask % Pow2(n)
  {
    if n > 0 {
      MaskOfBits(mask, classes, n - 1);
      NextBit(mask, Pow2(n - 1));
      assert n in classes <==> HasBit(mask, n);
    }
  }

  lemma {:induction false} NextBit(mask: nat, p: nat)
    requires p > 0
    ensures mask % (2 * p) == mask % p + (if mask / p % 2 == 1 then p else 0)
  {
    var q, r := mask / p, mask % p;
    assert mask == p * q + r && q == 2 * (q / 2) + q % 2;
    assert mask == (2 * p) * (q / 2) + (p * (q % 2) + r);
    QuotientIs(mask, 2 * p, q / 2, p * (q % 2) + r);
  }

  lemma {:induction false} HighBitIsOutside(mask: uint32, id: nat)
    requires 17 <= id <= 32 && HasBit(mask, id)
    ensures !IsPlayableClassMask(mask)
  {
    TwoTo32();
    hide Pow2;
    Pow2Grows(16, id - 1);
    OddQuotient(mask, Pow2(id - 1));
  }

  lemma {:induction false} OddQuotient(n: nat, p: nat)
    requires p > 0 && n / p % 2 == 1
    ensures n >= p
  {
  }

  /** The playable masks are those of sets of the classes 1 to 16. */
  lemma {:induction false} PlayableIffClasses(classes: set<nat>)
    requires forall id :: id in classes ==> 1 <= id <= 32
    ensures IsPlayableClassMask(MaskOf(classes)) <==> forall id :: id in classes ==> id <= 16
  {
    if forall id :: id in classes ==> id <= 16 {
      LowMaskIsPlayable(classes);
    }
    hide MaskOf, HasBit, IsPlayableClassMask;
    if IsPlayableClassMask(MaskOf(classes)) {
      forall id | id in classes ensures id <= 16 {
        HasBitOfMask(classes, id);
        if id > 16 {
          HighBitIsOutside(MaskOf(classes), id);
        }
      }
    }
  }

  lemma {:induction false} LowMaskIsPlayable(classes: set<nat>)
    requires forall id :: id in classes ==> id <= 16
    ensures IsPlayableClassMask(MaskOf(classes))
  {
    TwoTo32();
    NothingAbove(classes, 16, 32);
    MaskBound(classes, 16);
  }

  lemma {:induction false} Pow2Grows(a: nat, b: nat)
    requires a <= b
    ensures Pow2(a) <= Pow2(b)
  {
    if a < b {
      Pow2Grows(a, b - 1);
    }
  }

  lemma {:induction false} NothingAbove(classes: set<nat>, n: nat, m: nat)
    requires n <= m && forall id :: id in classes ==> id <= n
    ensures MaskUpTo(classes, m) == MaskUpTo(classes, n)
  {
    if n < m {
      NothingAbove(classes, n, m - 1);
    }
  }
}
