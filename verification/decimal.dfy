/**
  Unsigned decimal rendering of an integer as ASCII digits (what the
  `{id}` placeholder of a format string produces for a `u64`), and the
  parser that reads such digits back.
 */
module Decimal {
  import opened Numeric

  const Zero: byte := 48  // '0'

  predicate IsDigit(c: byte)
  {
    Zero <= c < Zero + 10
  }

  predicate AllDigits(s: seq<byte>)
  {
    forall i :: 0 <= i < |s| ==> IsDigit(s[i])
  }

  /** Canonical form: at least one digit and no leading zero, except
      for "0" itself. */
  predicate Canonical(s: seq<byte>)
  {
    && |s| >= 1
    && AllDigits(s)
    && (|s| > 1 ==> s[0] != Zero)
  }

  /** The decimal digits of n, most significant first. */
  function NatToDecimal(n: nat): (s: seq<byte>)
    ensures Canonical(s)
    ensures n < 10 <==> |s| == 1
  {
    if n < 10 then [Zero + n]
    else
      var s := NatToDecimal(n / 10) + [Zero + n % 10];
      assert s[0] == NatToDecimal(n / 10)[0];
      s
  }

  /** The value of a string of decimal digits. */
  function DecimalToNat(s: seq<byte>): nat
    requires AllDigits(s)
  {
    if |s| == 0 then 0
    else DecimalToNat(s[..|s| - 1]) * 10 + (s[|s| - 1] - Zero)
  }

  /** Parsing the rendering of n gives back n. */
  lemma {:induction false} DecimalToNatOfNatToDecimal(n: nat)
    ensures DecimalToNat(NatToDecimal(n)) == n
  {
    if n >= 10 {
      var s := NatToDecimal(n);
      DecimalToNatOfNatToDecimal(n / 10);
      assert s[..|s| - 1] == NatToDecimal(n / 10);
    }
  }

  /** Distinct numbers render differently. */
  lemma NatToDecimalInjective(m: nat, n: nat)
    ensures NatToDecimal(m) == NatToDecimal(n) <==> m == n
  {
    DecimalToNatOfNatToDecimal(m);
    DecimalToNatOfNatToDecimal(n);
  }

  lemma {:induction false} DecimalToNatZero(s: seq<byte>)
    requires AllDigits(s)
    requires DecimalToNat(s) == 0
    ensures forall i :: 0 <= i < |s| ==> s[i] == Zero
  {
    if |s| > 0 {
      var init := s[..|s| - 1];
      assert AllDigits(init) by {
        forall i | 0 <= i < |init| ensures IsDigit(init[i]) { assert init[i] == s[i]; }
      }
      DecimalToNatZero(init);
      forall i | 0 <= i < |s| ensures s[i] == Zero {
        if i < |s| - 1 { assert s[i] == init[i]; }
      }
    }
  }

  /** Rendering the value of a canonical digit string gives back the
      string: the rendering is exactly the canonical digit strings. */
  lemma {:induction false} NatToDecimalOfDecimalToNat(s: seq<byte>)
    requires Canonical(s)
    ensures NatToDecimal(DecimalToNat(s)) == s
  {
    if |s| == 1 {
      assert s[..0] == [];
    } else {
      var init, last := s[..|s| - 1], s[|s| - 1];
      assert AllDigits(init) by {
        forall i | 0 <= i < |init| ensures IsDigit(init[i]) { assert init[i] == s[i]; }
      }
      assert init[0] == s[0];
      var v := DecimalToNat(init);
      if v == 0 {
        DecimalToNatZero(init);
        assert false;
      }
      NatToDecimalOfDecimalToNat(init);
      var n := v * 10 + (last - Zero);
      assert n / 10 == v && n % 10 == last - Zero;
      assert s == init + [last];
    }
  }

  /** The rendering has at most k digits exactly when n < 10^k. */
  lemma {:induction false} NatToDecimalLength(n: nat, k: nat)
    requires k >= 1
    ensures |NatToDecimal(n)| <= k <==> n < Pow(10, k)
  {
    if n >= 10 {
      if k == 1 {
      } else {
        NatToDecimalLength(n / 10, k - 1);
        assert n / 10 < Pow(10, k - 1) <==> n < Pow(10, k);
      }
    } else {
      assert Pow(10, k) >= 10 by { assert Pow(10, 1) == 10; PowMonotone(10, 1, k); }
    }
  }

  lemma Pow10Of20()
    ensures Pow(10, 20) == 100_000_000_000_000_000_000
  {
    assert Pow(10, 5) == 100_000;
    assert Pow(10, 10) == 10_000_000_000;
    assert Pow(10, 15) == 1_000_000_000_000_000;
  }

  /** Every u64 renders in at most 20 digits. */
  lemma U64DecimalLength(n: u64)
    ensures 1 <= |NatToDecimal(n)| <= 20
  {
    Pow10Of20();
    NatToDecimalLength(n, 20);
  }
}
