/**
 The number that a 64-bit word denotes, and what shifts and masks do to it.
 */
module Words {
  /** A word read in binary. */
  function Value(x: bv64): nat
    decreases x
  {
    if x == 0 then 0 else 2 * Value(Shr(x)) + if Odd(x) then 1 else 0
  }

  function Shr(x: bv64): bv64 {
    x >> 1
  }

  function And(x: bv64, m: bv64): bv64 {
    x & m
  }

  predicate Odd(x: bv64) {
    x & 1 == 1
  }

  lemma Halved(x: bv64)
    ensures Value(x) == 2 * Value(Shr(x)) + (if Odd(x) then 1 else 0)
    ensures Value(Shr(x)) == Value(x) / 2
  {
  }

  /** Shifts by three times three places, and so on; named so that only the lemmas about them see the bits. */
  function Shr3(x: bv64): bv64 {
    x >> 3
  }

  function Shr9(x: bv64): bv64 {
    x >> 9
  }

  function Shr12(x: bv64): bv64 {
    x >> 12
  }

  lemma ShiftThree(x: bv64)
    ensures Value(Shr3(x)) == Value(x) / 8
  {
    hide Value, Shr, Odd, Shr3;
    ThreeShifts(x);
    Halved(x);
    Halved(Shr(x));
    Halved(Shr(Shr(x)));
  }

  lemma ThreeShifts(x: bv64)
    ensures Shr(Shr(Shr(x))) == Shr3(x)
  {
  }

  lemma ShiftNine(x: bv64)
    ensures Value(Shr9(x)) == Value(x) / 512
  {
    hide Value, Shr3, Shr9;
    NineShifts(x);
    ShiftThree(x);
    ShiftThree(Shr3(x));
    ShiftThree(Shr3(Shr3(x)));
  }

  lemma NineShifts(x: bv64)
    ensures Shr3(Shr3(Shr3(x))) == Shr9(x) && Shr3(Shr9(x)) == Shr12(x)
  {
  }

  /** The shifts of the index macros. */
  lemma ShiftValues(x: bv64)
    ensures Value(Shr12(x)) == Value(x) / 4096
    ensures Value(Shr9(Shr12(x))) == Value(x) / 4096 / 512
    ensures Value(Shr9(Shr9(Shr12(x)))) == Value(x) / 4096 / 512 / 512
    ensures Value(Shr9(Shr9(Shr9(Shr12(x))))) == Value(x) / 4096 / 512 / 512 / 512
  {
    hide Value, Shr3, Shr9, Shr12;
    NineShifts(x);
    ShiftNine(x);
    ShiftThree(Shr9(x));
    ShiftNine(Shr12(x));
    ShiftNine(Shr9(Shr12(x)));
    ShiftNine(Shr9(Shr9(Shr12(x))));
  }

  lemma MacroForms(x: bv64)
    ensures And(Shr12(x), 0x1FF) == (x >> 12) & 0x1FF
    ensures And(Shr9(Shr12(x)), 0x1FF) == (x >> 21) & 0x1FF
    ensures And(Shr9(Shr9(Shr12(x))), 0x1FF) == (x >> 30) & 0x1FF
    ensures And(Shr9(Shr9(Shr9(Shr12(x)))), 0x1FF) == (x >> 39) & 0x1FF
  {
  }

  /** A mask with one more low bit. */
  lemma MoreBits(x: bv64, m: bv64, h: bv64)
    requires Odd(m) && Shr(m) == h
    ensures Value(And(x, m)) == 2 * Value(And(Shr(x), h)) + if Odd(x) then 1 else 0
  {
    hide Value, Shr, Odd, And;
    Halved(And(x, m));
    MaskedHalf(x, m, h);
  }

  lemma MaskedHalf(x: bv64, m: bv64, h: bv64)
    requires Odd(m) && Shr(m) == h
    ensures Shr(And(x, m)) == And(Shr(x), h) && Odd(And(x, m)) == Odd(x)
  {
  }

  /** With three more. */
  lemma MoreThree(x: bv64, m: bv64, m1: bv64, m2: bv64, m3: bv64)
    requires Odd(m) && Shr(m) == m1 && Odd(m1) && Shr(m1) == m2 && Odd(m2) && Shr(m2) == m3
    ensures Value(And(x, m)) == 8 * Value(And(Shr3(x), m3)) + Value(x) % 8
  {
    hide Value, Shr, Shr3, Odd, And;
    var x1 := Shr(x);
    var x2 := Shr(x1);
    ThreeShifts(x);
    Halved(x);
    Halved(x1);
    Halved(x2);
    MoreBits(x, m, m1);
    MoreBits(x1, m1, m2);
    MoreBits(x2, m2, m3);
    LowBits(Value(x), Value(x1), Value(x2), Value(Shr3(x)), if Odd(x) then 1 else 0, if Odd(x1) then 1 else 0, if Odd(x2) then 1 else 0);
  }

  lemma LowBits(v: nat, v1: nat, v2: nat, v3: nat, b: nat, b1: nat, b2: nat)
    requires v == 2 * v1 + b && v1 == 2 * v2 + b1 && v2 == 2 * v3 + b2 && b < 2 && b1 < 2 && b2 < 2
    ensures v % 8 == 4 * b2 + 2 * b1 + b
  {
    assert v == 8 * v3 + (4 * b2 + 2 * b1 + b);
  }

  /** The mask of the index macros. */
  lemma LowNine(x: bv64)
    ensures Value(And(x, 0x1FF)) == Value(x) % 512
  {
    hide Value, Shr3, Shr, And, Odd;
    Masks();
    ShiftThree(x);
    ShiftThree(Shr3(x));
    MoreThree(x, 0x1FF, 0xFF, 0x7F, 0x3F);
    MoreThree(Shr3(x), 0x3F, 0x1F, 0xF, 7);
    MoreThree(Shr3(Shr3(x)), 7, 3, 1, 0);
    Nothing(Shr3(Shr3(Shr3(x))));
    EightsOf(Value(x));
  }

  lemma Nothing(x: bv64)
    ensures Value(And(x, 0)) == 0
  {
  }

  lemma EightsOf(v: nat)
    ensures v % 512 == 8 * (8 * (v / 8 / 8 % 8) + v / 8 % 8) + v % 8
  {
    var q := v / 512;
    assert v / 8 == 8 * (v / 8 / 8) + v / 8 % 8;
    assert v / 8 / 8 == 8 * q + v / 8 / 8 % 8;
  }

  lemma Masks()
    ensures Shr(1) == 0 && Shr(3) == 1 && Shr(7) == 3 && Shr(0xF) == 7 && Shr(0x1F) == 0xF && Shr(0x3F) == 0x1F
    ensures Shr(0x7F) == 0x3F && Shr(0xFF) == 0x7F && Shr(0x1FF) == 0xFF
    ensures Odd(1) && Odd(3) && Odd(7) && Odd(0xF) && Odd(0x1F) && Odd(0x3F) && Odd(0x7F) && Odd(0xFF) && Odd(0x1FF)
  {
  }
}
