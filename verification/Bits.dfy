/** The 64-bit masks of pattern ids, read as sets of bit positions. */
module Bits {

  predicate Odd(m: bv64) {
    m & 1 == 1
  }

  function Half(m: bv64): bv64 {
    m >> 1
  }

  /** Bit `p` of `m`. */
  predicate Has(m: bv64, p: nat)
    decreases p
  {
    if p == 0 then Odd(m) else Has(Half(m), p - 1)
  }

  /** `__builtin_ctzll`: the number of trailing zero bits of a non-zero mask. */
  function Ctz(m: bv64): (p: nat)
    requires m != 0
    ensures Has(m, p) && forall q: nat :: q < p ==> !Has(m, q)
    decreases m
  {
    if Odd(m) then 0
    else
      assert Half(m) < m && Half(m) != 0;
      1 + Ctz(Half(m))
  }

  /** `CBM_AC_PATTERN_BIT`. */
  function PatternBit(q: nat): bv64
    requires q < 64
  {
    1 << q
  }

  /** `CBM_AC_CLEAR_LOW_BIT`. */
  function ClearLow(m: bv64): bv64
    requires m != 0
  {
    m & (m - 1)
  }

  /** The bit positions that are set in `m`, found the way the scanners drain a mask. */
  function Members(m: bv64): (s: set<nat>)
    ensures forall p: nat :: p in s <==> Has(m, p)
    decreases m
  {
    if m == 0 then
      assert forall p: nat :: !Has(m, p) by { forall p: nat ensures !Has(0, p) { ZeroBit(p); } }
      {}
    else
      ClearLess(m);
      assert forall p: nat :: Has(m, p) <==> p == Ctz(m) || Has(ClearLow(m), p) by {
        forall p: nat ensures Has(m, p) <==> p == Ctz(m) || Has(ClearLow(m), p) { ClearBit(m, p); }
      }
      {Ctz(m)} + Members(ClearLow(m))
  }

  // How each mask operation acts on the low bit and on the rest.

  lemma OrStep(a: bv64, b: bv64)
    ensures Half(a | b) == Half(a) | Half(b)
    ensures Odd(a | b) <==> Odd(a) || Odd(b)
  {}

  lemma DiffStep(a: bv64, b: bv64)
    ensures Half(a & !b) == Half(a) & !Half(b)
    ensures Odd(a & !b) <==> Odd(a) && !Odd(b)
  {}

  lemma ClearStep(m: bv64)
    requires m != 0
    ensures !Odd(ClearLow(m))
    ensures Odd(m) ==> Half(ClearLow(m)) == Half(m)
    ensures !Odd(m) ==> Half(m) != 0 && Half(ClearLow(m)) == ClearLow(Half(m))
  {}

  lemma BitStep(q: nat)
    requires q < 64
    ensures Odd(PatternBit(q)) <==> q == 0
    ensures Half(PatternBit(q)) == if q == 0 then 0 else PatternBit(q - 1)
  {
    if q > 0 {
      hide Odd, Half, PatternBit;
      BitStepLow(q);
      BitStepHigh(q);
    }
  }

  lemma BitStepLow(q: nat)
    requires 0 < q < 64
    ensures !Odd(PatternBit(q))
  {}

  lemma BitStepHigh(q: nat)
    requires 0 < q < 64
    ensures Half(PatternBit(q)) == PatternBit(q - 1)
  {
    ShiftAmount(q);
    ShiftAmount(q - 1);
    AmountBefore(q);
    ShiftBack(q as bv6);
  }

  // A shift amount below 64 is taken as six bits, on which the shift law is cheap to decide.

  lemma ShiftAmount(q: nat)
    requires q < 64
    ensures (1 as bv64) << (q as bv6) == (1 as bv64) << q
  {}

  lemma ShiftBack(b: bv6)
    requires 0 < b
    ensures ((1 as bv64) << b) >> 1 == (1 as bv64) << (b - 1)
  {}

  lemma AmountBefore(q: nat)
    requires 0 < q < 64
    ensures 0 < q as bv6 && (q - 1) as bv6 == q as bv6 - 1
  {
    AmountKept(q);
    StepDown(q as bv6);
    BitsKept(q as bv6 - 1);
  }

  lemma AmountKept(q: nat)
    requires q < 64
    ensures (q as bv6) as nat == q
  {}

  lemma BitsKept(b: bv6)
    ensures (b as nat) as bv6 == b
  {}

  lemma StepDown(b: bv6)
    requires 0 < b
    ensures (b - 1) as nat == b as nat - 1
  {}

  lemma ClearLess(m: bv64)
    requires m != 0
    ensures ClearLow(m) < m
  {}

  // The same operations bit by bit.

  lemma {:induction false} OrBit(a: bv64, b: bv64, p: nat)
    ensures Has(a | b, p) <==> Has(a, p) || Has(b, p)
    decreases p
  {
    hide Odd, Half;
    OrStep(a, b);
    if p > 0 { OrBit(Half(a), Half(b), p - 1); }
  }

  lemma {:induction false} DiffBit(a: bv64, b: bv64, p: nat)
    ensures Has(a & !b, p) <==> Has(a, p) && !Has(b, p)
    decreases p
  {
    hide Odd, Half;
    DiffStep(a, b);
    if p > 0 { DiffBit(Half(a), Half(b), p - 1); }
  }

  lemma {:induction false} ClearBit(m: bv64, p: nat)
    requires m != 0
    ensures Has(ClearLow(m), p) <==> Has(m, p) && p != Ctz(m)
    decreases p
  {
    hide Odd, Half, ClearLow;
    ClearStep(m);
    if !Odd(m) && p > 0 { ClearBit(Half(m), p - 1); }
  }

  lemma {:induction false} ZeroBit(p: nat)
    ensures !Has(0, p)
  {
    if p > 0 { ZeroBit(p - 1); }
  }

  lemma {:induction false} PatternBitAt(q: nat, p: nat)
    requires q < 64
    ensures Has(PatternBit(q), p) <==> p == q
    decreases p
  {
    hide Odd, Half, PatternBit;
    BitStep(q);
    if p > 0 {
      if q > 0 { PatternBitAt(q - 1, p - 1); } else { ZeroBit(p - 1); }
    }
  }

  function Both(a: bv64, b: bv64): bv64 {
    a & b
  }

  lemma BothHalf(a: bv64, b: bv64)
    ensures Half(Both(a, b)) == Both(Half(a), Half(b))
  {}

  lemma BothOdd(a: bv64, b: bv64)
    ensures Odd(Both(a, b)) <==> Odd(a) && Odd(b)
  {}

  lemma BothZero(a: bv64)
    ensures Both(a, 0) == 0
  {}

  lemma ZeroStep(a: bv64)
    ensures a == 0 <==> !Odd(a) && Half(a) == 0
  {}

  /** A bit is set when the test for it says so. */
  lemma {:induction false} HasIsTested(m: bv64, p: nat)
    requires p < 64
    ensures Has(m, p) <==> Both(m, PatternBit(p)) != 0
    decreases p
  {
    hide Odd, Half, Both, PatternBit;
    BitStep(p);
    BothHalf(m, PatternBit(p));
    BothOdd(m, PatternBit(p));
    BothZero(Half(m));
    ZeroStep(Both(m, PatternBit(p)));
    if p > 0 { HasIsTested(Half(m), p - 1); }
  }

  /** Bit `p` of `m`, as C tests for it. */
  predicate IsSet(m: bv64, p: nat)
    requires p < 64
  {
    m & (1 << p) != 0
  }

  lemma HasIsSet(m: bv64, p: nat)
    requires p < 64
    ensures Has(m, p) <==> IsSet(m, p)
  {
    HasIsTested(m, p);
    TestIsSet(m, p);
  }

  lemma TestIsSet(m: bv64, p: nat)
    requires p < 64
    ensures Both(m, PatternBit(p)) != 0 <==> IsSet(m, p)
  {}

  // The mask operations as set operations.

  lemma OrMembers(a: bv64, b: bv64)
    ensures Members(a | b) == Members(a) + Members(b)
  {
    hide Odd, Half;
    forall p: nat ensures Has(a | b, p) <==> Has(a, p) || Has(b, p) { OrBit(a, b, p); }
  }

  lemma DiffMembers(a: bv64, b: bv64)
    ensures Members(a & !b) == Members(a) - Members(b)
  {
    hide Odd, Half;
    forall p: nat ensures Has(a & !b, p) <==> Has(a, p) && !Has(b, p) { DiffBit(a, b, p); }
  }

  lemma PatternMembers(q: nat)
    requires q < 64
    ensures Members(PatternBit(q)) == {q}
  {
    hide Odd, Half, PatternBit;
    forall p: nat ensures Has(PatternBit(q), p) <==> p == q { PatternBitAt(q, p); }
  }

  /** A mask is zero exactly when it names no bit; otherwise `Ctz` is its least member
      and clearing the low bit removes just that one. */
  lemma LowMember(m: bv64)
    ensures m == 0 <==> Members(m) == {}
    ensures m != 0 ==> Ctz(m) in Members(m) && forall q :: q in Members(m) ==> Ctz(m) <= q
    ensures m != 0 ==> Members(ClearLow(m)) == Members(m) - {Ctz(m)}
  {
    if m == 0 {
      forall p: nat ensures !Has(0, p) { ZeroBit(p); }
    } else {
      hide Odd, Half, ClearLow;
      assert Ctz(m) in Members(m);
      forall p: nat ensures Has(ClearLow(m), p) <==> Has(m, p) && p != Ctz(m) { ClearBit(m, p); }
    }
  }

  // The steps the automaton takes on masks.

  method Merge(a: bv64, b: bv64) returns (r: bv64)
    ensures Members(r) == Members(a) + Members(b)
  {
    OrMembers(a, b);
    r := a | b;
  }

  method Remove(a: bv64, b: bv64) returns (r: bv64)
    ensures Members(r) == Members(a) - Members(b)
  {
    DiffMembers(a, b);
    r := a & !b;
  }

  method AddBit(m: bv64, p: nat) returns (r: bv64)
    requires p < 64
    ensures Members(r) == Members(m) + {p}
  {
    PatternMembers(p);
    r := Merge(m, PatternBit(p));
  }

  /** Take the lowest bit off a mask. */
  method PopLowest(m: bv64) returns (p: nat, rest: bv64)
    requires m != 0
    ensures p in Members(m) && forall x :: x in Members(m) ==> p <= x
    ensures Members(rest) == Members(m) - {p}
  {
    LowMember(m);
    p := Ctz(m);
    rest := ClearLow(m);
  }
}
