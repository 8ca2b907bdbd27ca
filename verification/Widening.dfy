/** Reading a float32 keeps the number. */
module Widening {
  import opened Bytes
  import opened Decoder

  lemma {:induction false} Pow2Add(m: nat, n: nat)
    ensures Pow2(m + n) == Pow2(m) * Pow2(n)
    decreases m
  {
    if m > 0 {
      Pow2Add(m - 1, n);
      assert Pow2(m + n) == 2 * Pow2(m - 1 + n);
    }
  }

  /** The absolute value of a finite float32 without its sign bit, in units of the smallest one, 2^-149. */
  function Magnitude32(bits: nat): nat {
    var exponent, fraction := bits / 0x80_0000, bits % 0x80_0000;
    if exponent == 0 then fraction else (0x80_0000 + fraction) * Pow2(exponent - 1)
  }

  /** The same of a float64, in units of 2^-1074. */
  function Magnitude64(bits: nat): nat {
    var exponent, fraction := bits / 0x10_0000_0000_0000, bits % 0x10_0000_0000_0000;
    if exponent == 0 then fraction else (0x10_0000_0000_0000 + fraction) * Pow2(exponent - 1)
  }

  /** A number with the top bit of its fraction set, written with that bit implicit. */
  lemma Packed(exponent: nat, fraction: nat)
    requires exponent > 0 && 0x80_0000 <= fraction < 0x100_0000
    ensures Magnitude64(exponent * 0x10_0000_0000_0000 + (fraction - 0x80_0000) * 0x2000_0000)
         == fraction * 0x2000_0000 * Pow2(exponent - 1)
  {
    hide Pow2;
    var f := (fraction - 0x80_0000) * 0x2000_0000;
    var bits := exponent * 0x10_0000_0000_0000 + f;
    assert bits / 0x10_0000_0000_0000 == exponent && bits % 0x10_0000_0000_0000 == f;
    assert 0x10_0000_0000_0000 + f == fraction * 0x2000_0000;
  }

  lemma Swap(f: nat, k: nat, p: nat, q: nat)
    ensures f * k * (p * q) == f * p * (k * q)
  {
    assert k * (p * q) == p * (k * q);
  }

  lemma Halve(exponent: nat)
    requires exponent > 0
    ensures exponent == 1 ==> Pow2(exponent - 1) == 1
    ensures exponent > 1 ==> Pow2(exponent - 1) == 2 * Pow2(exponent - 2)
  {}

  /** Shifting a fraction up until its top bit shows keeps the number. */
  lemma {:induction false} NormalizeKeeps(fraction: nat, exponent: nat)
    requires 0 < fraction < 0x100_0000 && 0 < exponent <= 897
    requires 0x80_0000 <= fraction * Pow2(exponent - 1)
    ensures Magnitude64(Normalize(fraction, exponent)) == fraction * 0x2000_0000 * Pow2(exponent - 1)
    decreases exponent
  {
    hide Pow2, Magnitude64;
    Halve(exponent);
    if fraction >= 0x80_0000 {
      Packed(exponent, fraction);
      assert fraction % 0x80_0000 == fraction - 0x80_0000;
    } else {
      var p := Pow2(exponent - 2);
      Swap(fraction, 1, 2, p);
      Swap(fraction, 0x2000_0000, 2, p);
      NormalizeKeeps(fraction * 2, exponent - 1);
    }
  }

  lemma SmallPowers()
    ensures Pow2(23) == 0x80_0000 && Pow2(29) == 0x2000_0000
  {
    assert Pow2(8) == 0x100;
    assert Pow2(16) == 0x1_0000;
    assert Pow2(23) == 0x80_0000;
  }

  /** 897 leaves room to shift. */
  lemma Room()
    ensures Pow2(896) >= 0x80_0000 && 0x2000_0000 * Pow2(896) == Pow2(925)
  {
    hide Pow2;
    SmallPowers();
    Pow2Add(23, 873);
    Pow2Add(29, 896);
  }

  lemma Rebias(fraction: nat, exponent: nat)
    requires exponent > 0
    ensures fraction * 0x2000_0000 * Pow2(exponent + 895) == fraction * Pow2(exponent - 1) * Pow2(925)
  {
    hide Pow2;
    Pow2Add(exponent - 1, 896);
    Room();
    Swap(fraction, 0x2000_0000, Pow2(exponent - 1), Pow2(896));
  }

  lemma FieldsOf32(exponent: nat, fraction: nat)
    requires fraction < 0x80_0000
    ensures Magnitude32(exponent * 0x80_0000 + fraction) ==
            if exponent == 0 then fraction else (0x80_0000 + fraction) * Pow2(exponent - 1)
  {
    hide Pow2;
    var bits := exponent * 0x80_0000 + fraction;
    assert bits / 0x80_0000 == exponent && bits % 0x80_0000 == fraction;
  }

  /** The part of `Promote` without the sign. */
  lemma MagnitudeKept(exponent: nat, fraction: nat)
    requires exponent < 0xFF && fraction < 0x80_0000
    ensures var m := if exponent > 0 then (exponent + 896) * 0x10_0000_0000_0000 + fraction * 0x2000_0000
                     else if fraction == 0 then 0 else Normalize(fraction, 897);
            Magnitude64(m) == Magnitude32(exponent * 0x80_0000 + fraction) * Pow2(925)
  {
    hide Pow2, Magnitude32, Normalize;
    FieldsOf32(exponent, fraction);
    if exponent > 0 {
      hide Magnitude64;
      Packed(exponent + 896, fraction + 0x80_0000);
      Rebias(fraction + 0x80_0000, exponent);
    } else if fraction > 0 {
      hide Magnitude64;
      Room();
      var q := Pow2(896);
      assert fraction * q >= q;
      NormalizeKeeps(fraction, 897);
      Swap(fraction, 0x2000_0000, 1, q);
    }
  }

  /**
    Widening keeps the sign, is exact on every finite number down to the subnormals,
    and takes infinities to infinities and NaNs to NaNs.
   */
  lemma PromoteIsExact(bits: nat)
    requires bits < 0x1_0000_0000
    ensures var small, big := bits % 0x8000_0000, Promote(bits) % 0x8000_0000_0000_0000;
            && Promote(bits) / 0x8000_0000_0000_0000 == bits / 0x8000_0000
            && (small < 0x7F80_0000 ==>
                 big < 0x7FF0_0000_0000_0000 && Magnitude64(big) == Magnitude32(small) * Pow2(925))
            && (small == 0x7F80_0000 <==> big == 0x7FF0_0000_0000_0000)
            && (small > 0x7F80_0000 <==> big > 0x7FF0_0000_0000_0000)
  {
    hide Pow2, Magnitude32, Magnitude64, Normalize;
    var exponent, fraction, small := bits / 0x80_0000 % 0x100, bits % 0x80_0000, bits % 0x8000_0000;
    assert small == exponent * 0x80_0000 + fraction;
    if exponent < 0xFF {
      MagnitudeKept(exponent, fraction);
    }
  }
}
