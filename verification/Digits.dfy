/** Numbers as digit strings, and `convert_integer` of `printf.c`. */
module Digits {
  const MOD64 := 0x1_0000_0000_0000_0000

  function Pow(b: nat, k: nat): (r: nat)
    ensures b >= 1 ==> r >= 1
  {
    if k == 0 then 1 else Pow(b, k - 1) * b
  }

  function Quot(v: nat, b: nat): (q: nat)
    requires b >= 2
    ensures q * b <= v < q * b + b
    ensures q <= v && (v >= 1 ==> q < v) && (v < b <==> q == 0)
  {
    QuotFacts(v, b);
    v / b
  }

  function Rem(v: nat, b: nat): (r: nat)
    requires b >= 2
    ensures r < b && v == Quot(v, b) * b + r
  {
    QuotFacts(v, b);
    v % b
  }

  lemma QuotFacts(v: nat, b: nat)
    requires b >= 2
    ensures v == v / b * b + v % b && 0 <= v % b < b
    ensures 0 <= v / b <= v && (v >= 1 ==> v / b < v) && (v < b <==> v / b == 0)
  {
    var q, r := v / b, v % b;
    assert v == q * b + r;
    if q < 0 {
      MulLe(1, -q, b);
      assert false;
    }
    if q >= 1 {
      MulLe(1, q, b);
      assert q * b >= q * 2 by { MulLe(2, b, q); }
    }
  }

  lemma MulLe(x: int, y: int, b: nat)
    requires x <= y
    ensures x * b <= y * b && b * x <= b * y
  {
  }

  /** The number a digit string stands for, most significant digit first. */
  function Value(ds: seq<nat>, b: nat): nat {
    if ds == [] then 0 else Value(ds[..|ds| - 1], b) * b + ds[|ds| - 1]
  }

  predicate AreDigits(ds: seq<nat>, b: nat) {
    forall k :: 0 <= k < |ds| ==> ds[k] < b
  }

  /** The digits of `v`, without leading zeros. */
  function DigitsOf(v: nat, b: nat): (ds: seq<nat>)
    requires b >= 2
    ensures |ds| >= 1 && AreDigits(ds, b)
  {
    if v < b then [v] else DigitsOf(Quot(v, b), b) + [Rem(v, b)]
  }

  /** The last `n` digits of `v`, with leading zeros where it has fewer. */
  function Padded(v: nat, b: nat, n: nat): (ds: seq<nat>)
    requires b >= 2
    ensures |ds| == n && AreDigits(ds, b)
    decreases n
  {
    if n == 0 then [] else Padded(Quot(v, b), b, n - 1) + [Rem(v, b)]
  }

  lemma ValueSnoc(ds: seq<nat>, d: nat, b: nat)
    ensures Value(ds + [d], b) == Value(ds, b) * b + d
  {
    assert (ds + [d])[..|ds|] == ds;
  }

  /** Reading back what was written gives the number. */
  lemma {:induction false} DigitsDecode(v: nat, b: nat)
    requires b >= 2
    ensures Value(DigitsOf(v, b), b) == v
  {
    hide Quot, Rem;
    if v >= b {
      DigitsDecode(Quot(v, b), b);
      ValueSnoc(DigitsOf(Quot(v, b), b), Rem(v, b), b);
    } else {
      assert [v][..0] == [];
    }
  }

  lemma Carry(x: nat, d: nat, p: nat, b: nat)
    requires x < p && d < b
    ensures x * b + d < p * b
  {
    MulLe(x + 1, p, b);
    assert (x + 1) * b == x * b + b;
  }

  lemma {:induction false} ValueBound(ds: seq<nat>, b: nat)
    requires b >= 2 && AreDigits(ds, b)
    ensures Value(ds, b) < Pow(b, |ds|)
  {
    if ds != [] {
      var n := |ds| - 1;
      ValueBound(ds[..n], b);
      Carry(Value(ds[..n], b), ds[n], Pow(b, n), b);
    }
  }

  lemma {:induction false} DigitsLower(v: nat, b: nat)
    requires b >= 2 && v >= 1
    ensures Pow(b, |DigitsOf(v, b)| - 1) <= v
  {
    hide Quot, Rem;
    if v >= b {
      var q := Quot(v, b);
      DigitsLower(q, b);
      MulLe(Pow(b, |DigitsOf(q, b)| - 1), q, b);
    }
  }

  lemma {:induction false} PowMonotone(b: nat, j: nat, k: nat)
    requires b >= 1 && j <= k
    ensures Pow(b, j) <= Pow(b, k)
    decreases k
  {
    if j < k {
      PowMonotone(b, j, k - 1);
      MulLe(1, b, Pow(b, k - 1));
    }
  }

  /** A number below `b^k` has at most `k` digits. */
  lemma DigitsFit(v: nat, b: nat, k: nat)
    requires b >= 2 && k >= 1 && v < Pow(b, k)
    ensures |DigitsOf(v, b)| <= k
  {
    if v >= 1 && |DigitsOf(v, b)| > k {
      DigitsLower(v, b);
      PowMonotone(b, k, |DigitsOf(v, b)| - 1);
      assert false;
    }
  }

  /** No other digit string for the same number is shorter. */
  lemma DigitsMinimal(v: nat, b: nat, ds: seq<nat>)
    requires b >= 2 && |ds| >= 1 && AreDigits(ds, b) && Value(ds, b) == v
    ensures |DigitsOf(v, b)| <= |ds|
  {
    ValueBound(ds, b);
    DigitsFit(v, b, |ds|);
  }

  /** In enough places nothing is cut off. */
  lemma {:induction false} PaddedDecode(v: nat, b: nat, n: nat)
    requires b >= 2 && v < Pow(b, n)
    ensures Value(Padded(v, b, n), b) == v
    decreases n
  {
    hide Quot, Rem;
    if n > 0 {
      var q := Quot(v, b);
      if Pow(b, n - 1) <= q {
        MulLe(Pow(b, n - 1), q, b);
        assert false;
      }
      PaddedDecode(q, b, n - 1);
      ValueSnoc(Padded(q, b, n - 1), Rem(v, b), b);
    }
  }

  /** As many places as there are digits show exactly the digits. */
  lemma {:induction false} PaddedExact(v: nat, b: nat)
    requires b >= 2
    ensures Padded(v, b, |DigitsOf(v, b)|) == DigitsOf(v, b)
  {
    if v >= b {
      PaddedExact(Quot(v, b), b);
    } else {
      assert Padded(Quot(v, b), b, 0) == [];
    }
  }

  /** Every 64-bit number fits the 24 bytes that `printf` reserves, in base 8, 10 and 16. */
  lemma BufferSuffices(v: nat, b: nat)
    requires v < MOD64 && (b == 8 || b == 10 || b == 16)
    ensures |DigitsOf(v, b)| <= 22
  {
    assert MOD64 <= Pow(8, 22) by {
      assert Pow(8, 5) == 0x8000;
      assert Pow(8, 10) == 0x4000_0000;
      assert Pow(8, 15) == 0x2000_0000_0000;
      assert Pow(8, 20) == 0x1000_0000_0000_0000;
    }
    BaseMonotone(8, b, 22);
    DigitsFit(v, b, 22);
  }

  lemma {:induction false} BaseMonotone(a: nat, b: nat, k: nat)
    requires a <= b
    ensures Pow(a, k) <= Pow(b, k)
  {
    if k > 0 {
      BaseMonotone(a, b, k - 1);
      MulLe(Pow(a, k - 1), Pow(b, k - 1), a);
      MulLe(a, b, Pow(b, k - 1));
    }
  }

  /** The counting loop of `convert_integer`. */
  method CountDigits(value: nat, base: nat) returns (result: nat)
    requires base >= 2
    ensures result == |DigitsOf(value, base)|
  {
    hide Quot, Rem;
    result := 1;
    var copy := value;
    while base <= copy
      invariant |DigitsOf(value, base)| == result - 1 + |DigitsOf(copy, base)|
    {
      copy, result := Quot(copy, base), result + 1;
    }
  }

  /** Digits written from the right: the last `n` digits of `value` at `destination[at..]`. */
  method FillDigits(destination: array<char>, at: nat, n: nat, value: nat, base: nat, digits: string)
    requires base >= 2 && |digits| >= base && at + n <= destination.Length
    modifies destination
    ensures forall k :: 0 <= k < n ==> destination[at + k] == digits[Padded(value, base, n)[k]]
    ensures forall k :: 0 <= k < destination.Length && !(at <= k < at + n) ==> destination[k] == old(destination[k])
  {
    hide Quot, Rem;
    ghost var ds := Padded(value, base, n);
    var i, v := n, value;
    while i != 0
      invariant 0 <= i <= n && Padded(v, base, i) == ds[..i]
      invariant forall k :: i <= k < n ==> destination[at + k] == digits[ds[k]]
      invariant forall k :: 0 <= k < destination.Length && !(at <= k < at + n) ==> destination[k] == old(destination[k])
    {
      PaddedLast(v, base, i, ds);
      destination[at + i - 1] := digits[Rem(v, base)];
      v := Quot(v, base);
      i := i - 1;
    }
  }

  lemma PaddedLast(v: nat, b: nat, i: nat, ds: seq<nat>)
    requires b >= 2 && 0 < i <= |ds| && Padded(v, b, i) == ds[..i]
    ensures ds[i - 1] == Rem(v, b) && Padded(Quot(v, b), b, i - 1) == ds[..i - 1]
  {
    hide Quot, Rem;
    assert ds[..i][i - 1] == ds[i - 1] && ds[..i][..i - 1] == ds[..i - 1];
  }

  /** `convert_integer`. */
  method ConvertInteger(destination: array<char>, value: nat, base: nat, digits: string) returns (result: nat)
    requires value < MOD64 && (base == 8 || base == 10 || base == 16) && |digits| == 16 && destination.Length == 24
    modifies destination
    ensures result == |DigitsOf(value, base)| <= destination.Length
    ensures forall k :: 0 <= k < result ==> destination[k] == digits[DigitsOf(value, base)[k]]
    ensures forall k :: result <= k < destination.Length ==> destination[k] == old(destination[k])
  {
    hide Padded, DigitsOf;
    BufferSuffices(value, base);
    PaddedExact(value, base);
    result := CountDigits(value, base);
    FillDigits(destination, 0, result, value, base, digits);
    assert forall k :: 0 <= k < result ==> destination[0 + k] == destination[k];
  }
}
