/**
  The big-endian conversions between byte strings and unsigned integers
  (`u64::from_be_bytes` / `u64::to_be_bytes` in the firmware's language).
 */
module BigEndian {

  import opened Numeric

  lemma Pow256Of8()
    ensures Pow(256, 8) == 0x1_0000_0000_0000_0000
  {
  }

  lemma ShiftInBound(p: nat, b: byte, k: nat)
    requires p < Pow(256, k)
    ensures p * 256 + b < Pow(256, k + 1)
  {
  }

  /** The value of a byte string read most significant byte first
      (Horner's rule, one byte shifted in at a time). */
  function FromBeBytes(s: seq<byte>): (n: nat)
    ensures n < Pow(256, |s|)
  {
    if |s| == 0 then 0
    else
      var p := FromBeBytes(s[..|s| - 1]);
      ShiftInBound(p, s[|s| - 1], |s| - 1);
      p * 256 + s[|s| - 1]
  }

  lemma DivModByte(n: nat, k: nat)
    requires k >= 1
    requires n < Pow(256, k)
    ensures n / 256 < Pow(256, k - 1)
    ensures n == (n / 256) * 256 + n % 256
  {
  }

  /** The k-byte big-endian encoding of n: the inverse of FromBeBytes. */
  function ToBeBytes(n: nat, k: nat): (s: seq<byte>)
    requires n < Pow(256, k)
    ensures |s| == k
    ensures FromBeBytes(s) == n
  {
    if k == 0 then []
    else
      DivModByte(n, k);
      var s := ToBeBytes(n / 256, k - 1) + [n % 256];
      assert s[..|s| - 1] == ToBeBytes(n / 256, k - 1);
      s
  }

  /** Encoding the value of a byte string gives back the byte string. */
  lemma {:induction false} ToBeBytesOfFromBeBytes(s: seq<byte>)
    ensures ToBeBytes(FromBeBytes(s), |s|) == s
  {
    if |s| > 0 {
      var init, last := s[..|s| - 1], s[|s| - 1];
      var v := FromBeBytes(init);
      var n := FromBeBytes(s);
      assert n / 256 == v && n % 256 == last by {
        assert n == v * 256 + last;
        ShiftDivMod(v, last);
      }
      assert ToBeBytes(n, |s|) == ToBeBytes(n / 256, |s| - 1) + [n % 256];
      ToBeBytesOfFromBeBytes(init);
      assert s == init + [last];
    }
  }

  lemma ShiftDivMod(v: nat, b: byte)
    ensures (v * 256 + b) / 256 == v
    ensures (v * 256 + b) % 256 == b
  {
  }

  /** Byte strings of one length with the same value are equal. */
  lemma FromBeBytesInjective(a: seq<byte>, b: seq<byte>)
    requires |a| == |b|
    requires FromBeBytes(a) == FromBeBytes(b)
    ensures a == b
  {
  }

  /** Reference reading of a big-endian byte string: the sum over i of
      s[i] * 256^(|s|-1-i). */
  function WeightedSum(s: seq<byte>): nat
  {
    if |s| == 0 then 0 else s[0] * Pow(256, |s| - 1) + WeightedSum(s[1..])
  }

  lemma {:induction false} WeightedSumSnoc(t: seq<byte>, b: byte)
    ensures WeightedSum(t + [b]) == WeightedSum(t) * 256 + b
  {
    if |t| == 0 {
      assert t + [b] == [b];
    } else {
      var m := |t|;
      assert (t + [b])[1..] == t[1..] + [b];
      WeightedSumSnoc(t[1..], b);
      calc {
        WeightedSum(t + [b]);
        t[0] * Pow(256, m) + WeightedSum(t[1..] + [b]);
        t[0] * (256 * Pow(256, m - 1)) + WeightedSum(t[1..]) * 256 + b;
        { assert t[0] * (256 * Pow(256, m - 1)) == (t[0] * Pow(256, m - 1)) * 256; }
        (t[0] * Pow(256, m - 1) + WeightedSum(t[1..])) * 256 + b;
        WeightedSum(t) * 256 + b;
      }
    }
  }

  /** Horner's reading agrees with the weighted sum of the bytes. */
  lemma {:induction false} FromBeBytesIsWeightedSum(s: seq<byte>)
    ensures FromBeBytes(s) == WeightedSum(s)
  {
    if |s| > 0 {
      var init, last := s[..|s| - 1], s[|s| - 1];
      FromBeBytesIsWeightedSum(init);
      WeightedSumSnoc(init, last);
      assert s == init + [last];
    }
  }
}
