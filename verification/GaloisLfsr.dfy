/** galois_lfsr.c: a 64-bit Galois shift register, and the words that are built from its bits. */
module GaloisLfsr {
  import opened Common

  const WIDTH := 64

  // A uint64_t by its bits, lowest first.
  type Bits = s: seq<bool> | |s| == WIDTH witness seq(WIDTH, _ => false)

  function Zero(): Bits {
    seq(WIDTH, _ => false)
  }

  // tapbit(64) | tapbit(63) | tapbit(61) | tapbit(60), where tapbit counts from 1
  predicate Tap(i: nat) {
    i + 1 == 64 || i + 1 == 63 || i + 1 == 61 || i + 1 == 60
  }

  // lfsr_output
  predicate Output(s: Bits) {
    s[0]
  }

  // lfsr_next: a shift to the right, and the taps flipped when a 1 was shifted out.
  function Next(s: Bits): (t: Bits)
    ensures forall i | 0 <= i < WIDTH :: t[i] == ((i + 1 < WIDTH && s[i + 1]) != (s[0] && Tap(i)))
  {
    seq(WIDTH, i requires 0 <= i < WIDTH => (i + 1 < WIDTH && s[i + 1]) != (s[0] && Tap(i)))
  }

  // The step back: the top bit tells whether the taps were flipped.
  function Prev(t: Bits): (s: Bits)
    ensures s[0] == t[WIDTH - 1]
    ensures forall i | 0 <= i < WIDTH - 1 :: s[i + 1] == (t[i] != (t[WIDTH - 1] && Tap(i)))
  {
    seq(WIDTH, i requires 0 <= i < WIDTH => if i == 0 then t[WIDTH - 1] else t[i - 1] != (t[WIDTH - 1] && Tap(i - 1)))
  }

  function Xor(a: Bits, b: Bits): (c: Bits)
    ensures forall i | 0 <= i < WIDTH :: c[i] == (a[i] != b[i])
  {
    seq(WIDTH, i requires 0 <= i < WIDTH => a[i] != b[i])
  }

  function After(s: Bits, n: nat): Bits {
    if n == 0 then s else Next(After(s, n - 1))
  }

  // The number whose binary digits, highest first, are the next n output bits.
  function Word(s: Bits, n: nat): nat {
    if n == 0 then 0 else 2 * Word(s, n - 1) + if Output(After(s, n - 1)) then 1 else 0
  }

  // ----- The register -----

  lemma SameBits(a: Bits, b: Bits)
    requires forall i | 0 <= i < WIDTH :: a[i] == b[i]
    ensures a == b
  {
  }

  // The step is a bijection on 64-bit states.
  lemma Invertible(s: Bits)
    ensures Prev(Next(s)) == s && Next(Prev(s)) == s
  {
    var p, t := Prev(Next(s)), Next(s);
    forall i | 0 <= i < WIDTH
      ensures p[i] == s[i]
    {
      if i > 0 { assert p[i] == p[(i - 1) + 1]; }
    }
    SameBits(p, s);
    SameBits(Next(Prev(s)), s);
  }

  lemma {:induction false} AfterInjective(a: Bits, b: Bits, n: nat)
    requires After(a, n) == After(b, n)
    ensures a == b
  {
    hide Next, Prev;
    if n > 0 {
      Invertible(After(a, n - 1));
      Invertible(After(b, n - 1));
      AfterInjective(a, b, n - 1);
    }
  }

  lemma NextZero()
    ensures Next(Zero()) == Zero()
  {
    SameBits(Next(Zero()), Zero());
  }

  lemma {:induction false} AfterZero(n: nat)
    ensures After(Zero(), n) == Zero()
  {
    hide Next, Zero;
    NextZero();
    if n > 0 {
      AfterZero(n - 1);
    }
  }

  // A seed other than zero never leads to zero.
  lemma NeverZero(s: Bits, n: nat)
    ensures After(s, n) == Zero() <==> s == Zero()
  {
    AfterZero(n);
    if After(s, n) == Zero() {
      AfterInjective(s, Zero(), n);
    }
  }

  lemma NextLinear(a: Bits, b: Bits)
    ensures Next(Xor(a, b)) == Xor(Next(a), Next(b))
  {
    SameBits(Next(Xor(a, b)), Xor(Next(a), Next(b)));
  }

  lemma {:induction false} AfterLinear(a: Bits, b: Bits, n: nat)
    ensures After(Xor(a, b), n) == Xor(After(a, n), After(b, n))
  {
    if n > 0 {
      AfterLinear(a, b, n - 1);
      NextLinear(After(a, n - 1), After(b, n - 1));
    }
  }

  // ----- 64 bits determine the state -----

  // As long as only zeros come out, the register just shifts.
  lemma {:induction false} ZerosShift(s: Bits, n: nat)
    requires forall k | 0 <= k < n :: !Output(After(s, k))
    ensures forall i | 0 <= i < WIDTH :: After(s, n)[i] == (i + n < WIDTH && s[i + n])
  {
    if n > 0 {
      ZerosShift(s, n - 1);
      var t := After(s, n - 1);
      assert !Output(t);
      forall i | 0 <= i < WIDTH
        ensures Next(t)[i] == (i + n < WIDTH && s[i + n])
      {
        if i + 1 < WIDTH { assert t[i + 1] == (i + 1 + (n - 1) < WIDTH && s[i + 1 + (n - 1)]); }
      }
    }
  }

  // The next n output bits are the same.
  ghost predicate Agree(a: Bits, b: Bits, n: nat) {
    forall k | 0 <= k < n :: Output(After(a, k)) == Output(After(b, k))
  }

  // Two states with the same next 64 output bits are the same state.
  lemma {:induction false} OutputsDetermine(a: Bits, b: Bits)
    requires Agree(a, b, WIDTH)
    ensures a == b
  {
    var d := Xor(a, b);
    forall k | 0 <= k < WIDTH
      ensures !Output(After(d, k))
    {
      AfterLinear(a, b, k);
    }
    forall k | 0 <= k < WIDTH
      ensures a[k] == b[k]
    {
      ZerosShift(d, k);
      assert After(d, k)[0] == d[0 + k];
    }
    SameBits(a, b);
  }

  // One bit fewer would not do.
  lemma {:induction false} NotFewer()
    ensures exists a: Bits, b: Bits :: Agree(a, b, 63) && a != b
  {
    var top: Bits := Zero()[WIDTH - 1 := true];
    forall k | 0 <= k < WIDTH - 1
      ensures Output(After(top, k)) == Output(After(Zero(), k))
    {
      AfterZero(k);
      TopShifts(top, k);
    }
    assert Agree(top, Zero(), 63);
    assert top[WIDTH - 1] != Zero()[WIDTH - 1];
  }

  lemma {:induction false} TopShifts(top: Bits, k: nat)
    requires k < WIDTH && top == Zero()[WIDTH - 1 := true]
    ensures forall i | 0 <= i < WIDTH :: After(top, k)[i] == (i + k == WIDTH - 1)
  {
    if k > 0 {
      TopShifts(top, k - 1);
    }
  }

  // ----- Words -----

  lemma {:induction false} WordDigits(a: Bits, b: Bits, n: nat)
    requires Word(a, n) == Word(b, n)
    ensures Agree(a, b, n)
  {
    if n > 0 {
      WordDigits(a, b, n - 1);
    }
  }

  // c4rt_prng_u64 returns different numbers from different states.
  lemma WordInjective(a: Bits, b: Bits)
    ensures Word(a, WIDTH) == Word(b, WIDTH) <==> a == b
  {
    if Word(a, WIDTH) == Word(b, WIDTH) {
      WordDigits(a, b, WIDTH);
      OutputsDetermine(a, b);
    }
  }

  lemma {:induction false} AfterAfter(s: Bits, m: nat, n: nat)
    ensures After(After(s, m), n) == After(s, m + n)
  {
    if n > 0 {
      AfterAfter(s, m, n - 1);
    }
  }

  ghost predicate Parts(all: nat, w: nat, p: nat, v: nat) {
    all == w * p + v
  }

  lemma OneMoreDigit(all: nat, w: nat, p: nat, v: nat, bit: nat)
    requires Parts(all, w, p, v)
    ensures Parts(2 * all + bit, w, 2 * p, 2 * v + bit)
  {
    assert w * (2 * p) == 2 * (w * p);
  }

  function Bit(s: Bits, n: nat): nat {
    if Output(After(s, n)) then 1 else 0
  }

  lemma WordNext(s: Bits, n: nat)
    ensures Word(s, n + 1) == 2 * Word(s, n) + Bit(s, n) && Pow2(n + 1) == 2 * Pow2(n)
    ensures Word(s, 0) == 0 && Pow2(0) == 1 && After(s, 0) == s
  {
  }

  // A word is its first part moved up by the second, and the second.
  lemma {:induction false} WordSplit(s: Bits, m: nat, n: nat)
    ensures Parts(Word(s, m + n), Word(s, m), Pow2(n), Word(After(s, m), n))
  {
    hide Parts, Word, After, Pow2, Output;
    if n == 0 {
      WordNext(After(s, m), 0);
      WordWhole(Word(s, m));
    } else {
      var k: nat := n - 1;
      WordSplit(s, m, k);
      AfterAfter(s, m, k);
      WordNext(s, m + k);
      WordNext(After(s, m), k);
      OneMoreDigit(Word(s, m + k), Word(s, m), Pow2(k), Word(After(s, m), k), Bit(s, m + k));
    }
  }

  lemma WordWhole(w: nat)
    ensures Parts(w, w, 1, 0)
  {
  }

  lemma {:induction false} WordBound(s: Bits, n: nat)
    ensures Word(s, n) < Pow2(n)
  {
    if n > 0 {
      WordBound(s, n - 1);
    }
  }

  lemma NextDigit(s: Bits, i: nat)
    requires i < 8
    ensures Word(s, i + 1) == Word(s, i) * 2 % 0x100 + (if Output(After(s, i)) then 1 else 0) < 0x100
    ensures After(After(s, i), 1) == After(s, i + 1)
  {
    WordBound(s, i);
    WordBound(s, i + 1);
    Pow2Mono(i, 7);
    Pow2Mono(i + 1, 8);
    AfterAfter(s, i, 1);
    assert Pow2(7) == 0x80 && Pow2(8) == 0x100;
  }

  // Digit k of a word, counted from the highest, is output bit k.
  lemma {:induction false} WordDigit(s: Bits, n: nat, k: nat)
    requires k < n
    ensures Word(s, n) / Pow2(n - 1 - k) % 2 == if Output(After(s, k)) then 1 else 0
  {
    hide Word, After, Pow2, Output, Parts;
    var r := n - 1 - k;
    WordSplit(s, k + 1, r);
    WordBound(After(s, k + 1), r);
    WordNext(s, k);
    PartsDigit(Word(s, n), Word(s, k), Bit(s, k), Pow2(r), Word(After(s, k + 1), r));
  }

  lemma PartsDigit(all: nat, w: nat, bit: nat, p: nat, v: nat)
    requires bit < 2 && v < p && Parts(all, 2 * w + bit, p, v)
    ensures all / p % 2 == bit
  {
    Unique(all, p, 2 * w + bit, v);
  }

  // ----- The law of the output -----

  lemma StepBit(s: Bits, n: nat, i: nat)
    requires i < WIDTH
    ensures After(s, n + 1)[i] == ((i + 1 < WIDTH && After(s, n)[i + 1]) != (Output(After(s, n)) && Tap(i)))
  {
  }

  // A bit goes down from place 59 undisturbed.
  lemma {:induction false} Descends(s: Bits, n: nat, j: nat)
    requires j <= 59
    ensures After(s, n + j)[59 - j] == After(s, n)[59]
  {
    if j > 0 {
      Descends(s, n, j - 1);
      StepBit(s, n + j - 1, 59 - j);
      hide After;
    }
  }

  // Each output bit is the exclusive or of the bits 64, 63, 61 and 60 places before it.
  lemma {:induction false} Recurrence(s: Bits, n: nat)
    ensures Output(After(s, n + 64))
         == (((Output(After(s, n)) != Output(After(s, n + 1))) != Output(After(s, n + 3))) != Output(After(s, n + 4)))
  {
    StepBit(s, n, 63);
    StepBit(s, n + 1, 62);
    StepBit(s, n + 2, 61);
    StepBit(s, n + 3, 60);
    StepBit(s, n + 4, 59);
    Descends(s, n + 5, 59);
    hide After;
  }

  // The state 1 is followed by 0xd800000000000000.
  lemma AfterOne(s: Bits)
    requires forall i | 0 <= i < WIDTH :: s[i] == (i == 0)
    ensures forall i | 0 <= i < WIDTH :: After(s, 1)[i] == (i in {63, 62, 60, 59})
  {
    assert After(s, 1) == Next(After(s, 0));
  }

  class Prng {
    var state: Bits

    // c4rt_prng_seed
    method Seed(seed: Bits)
      modifies this
      ensures state == seed
    {
      state := seed;
    }

    // c4rt_prng_bool
    method Bool() returns (bit: bool)
      modifies this
      ensures bit == Output(old(state)) && state == After(old(state), 1)
    {
      bit := Output(state);
      state := Next(state);
      assert After(old(state), 1) == Next(After(old(state), 0));
    }

    // c4rt_prng_u8
    method U8() returns (ret: nat)
      modifies this
      ensures ret == Word(old(state), 8) < 0x100 && state == After(old(state), 8)
    {
      ret := 0;
      for i := 0 to 8
        invariant ret == Word(old(state), i) && state == After(old(state), i) && (i > 0 ==> ret < 0x100)
      {
        NextDigit(old(state), i);
        hide Word, After;
        ret := ret * 2 % 0x100;
        var bit := Bool();
        ret := ret + if bit then 1 else 0;
      }
    }

    // c4rt_prng_u16; the first call gives the high half.
    method U16() returns (ret: nat)
      modifies this
      ensures ret == Word(old(state), 16) < 0x1_0000 && state == After(old(state), 16)
    {
      hide Word;
      var high := U8();
      var low := U8();
      ret := high * 0x100 + low;
      Halves(old(state), 8);
    }

    // c4rt_prng_u32
    method U32() returns (ret: nat)
      modifies this
      ensures ret == Word(old(state), 32) < 0x1_0000_0000 && state == After(old(state), 32)
    {
      hide Word;
      var high := U16();
      var low := U16();
      ret := high * 0x1_0000 + low;
      Halves(old(state), 16);
    }

    // c4rt_prng_u64: the next 64 output bits, so each state gives a different number.
    method U64() returns (ret: nat)
      modifies this
      ensures ret == Word(old(state), WIDTH) < 0x1_0000_0000_0000_0000 && state == After(old(state), WIDTH)
      ensures forall s: Bits :: Word(s, WIDTH) == ret <==> s == old(state)
    {
      hide Word;
      var high := U32();
      var low := U32();
      ret := high * 0x1_0000_0000 + low;
      Halves(old(state), 32);
      forall s: Bits
        ensures Word(s, WIDTH) == ret <==> s == old(state)
      {
        WordInjective(s, old(state));
      }
    }
  }

  lemma Halves(s: Bits, n: nat)
    requires n == 8 || n == 16 || n == 32
    ensures Word(s, n + n) == Word(s, n) * Pow2(n) + Word(After(s, n), n) < Pow2(n + n)
    ensures After(After(s, n), n) == After(s, n + n)
    ensures Pow2(8) == 0x100 && Pow2(16) == 0x1_0000 && Pow2(32) == 0x1_0000_0000 && Pow2(64) == 0x1_0000_0000_0000_0000
  {
    WordSplit(s, n, n);
    WordBound(s, n + n);
    AfterAfter(s, n, n);
    Pow2Values();
  }

  lemma Pow2Values()
    ensures Pow2(8) == 0x100 && Pow2(16) == 0x1_0000 && Pow2(32) == 0x1_0000_0000 && Pow2(64) == 0x1_0000_0000_0000_0000
  {
    assert Pow2(4) == 16;
    Pow2Sum(4, 4);
    hide Pow2;
    Pow2Sum(8, 8);
    Pow2Sum(16, 16);
    Pow2Sum(32, 32);
  }

  lemma Twice(a: nat, b: nat)
    ensures a * (2 * b) == 2 * (a * b)
  {
  }

  lemma {:induction false} Pow2Sum(a: nat, b: nat)
    ensures Pow2(a + b) == Pow2(a) * Pow2(b)
  {
    if b > 0 {
      Pow2Sum(a, b - 1);
      assert Pow2(b) == 2 * Pow2(b - 1) && Pow2(a + b) == 2 * Pow2(a + (b - 1));
      hide Pow2;
      Twice(Pow2(a), Pow2(b - 1));
    } else {
      assert Pow2(0) == 1;
    }
  }
}
