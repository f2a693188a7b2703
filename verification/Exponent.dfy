/** `getexp`: the power-of-two bucket of a size (liballoc.c). */
module Exponent {
  import opened Machine

  const MINEXP := 8
  const MAXEXP := 32

  function Pow2(n: nat): (r: nat)
    ensures r >= 1
  {
    if n == 0 then 1 else 2 * Pow2(n - 1)
  }

  function Log2(x: nat): (n: nat)
    requires x >= 1
    ensures Pow2(n) <= x < Pow2(n + 1)
  {
    if x == 1 then 0 else Log2(x / 2) + 1
  }

  /** What `getexp` computes; -1 stands for "smaller than the quantum". */
  function ExpOf(size: nat): int {
    if size < 256 then -1 else Log2(size)
  }

  lemma {:induction false} Pow2Monotone(a: nat, b: nat)
    requires a <= b
    ensures Pow2(a) <= Pow2(b)
    ensures a < b ==> 2 * Pow2(a) <= Pow2(b)
    decreases b
  {
    if a < b {
      Pow2Monotone(a, b - 1);
    }
  }

  lemma Pow2Values()
    ensures Pow2(8) == 256 && Pow2(9) == 512 && Pow2(31) == HALF32 && Pow2(32) == MOD32
  {
    assert Pow2(8) == 256;
    assert Pow2(16) == 65536;
    assert Pow2(24) == 0x100_0000;
    assert Pow2(31) == HALF32;
  }

  /** The exponent of a size is the only one whose power-of-two interval holds it. */
  lemma Log2Unique(x: nat, n: nat)
    requires x >= 1
    ensures Pow2(n) <= x < Pow2(n + 1) <==> n == Log2(x)
  {
    var m := Log2(x);
    if n < m {
      Pow2Monotone(n + 1, m);
    } else if m < n {
      Pow2Monotone(m + 1, n);
    }
  }

  /** Every 32-bit size of at least one quantum has an exponent between 8 and 31. */
  lemma ExpOfRange(size: nat)
    requires size < MOD32
    ensures ExpOf(size) == -1 || MINEXP <= ExpOf(size) < MAXEXP
    ensures ExpOf(size) == -1 <==> size < 256
  {
    Pow2Values();
    if size >= 256 {
      var n := Log2(size);
      if n < 8 {
        Pow2Monotone(n + 1, 8);
      } else if n >= 32 {
        Pow2Monotone(32, n);
      }
    }
  }

  /** The search loop of `getexp`. The bound 1 << 31 is compared as an unsigned number. */
  method GetExp(size: nat) returns (e: int)
    requires size < MOD32
    ensures e == ExpOf(size)
    ensures size < 256 ==> e == -1
    ensures size >= 256 ==> MINEXP <= e < MAXEXP && Pow2(e) <= size < Pow2(e + 1)
  {
    ExpOfRange(size);
    Pow2Values();
    if size < 256 {
      return -1;
    }
    var shift := MINEXP;
    while shift < MAXEXP
      invariant MINEXP <= shift <= MAXEXP
      invariant shift > MINEXP ==> Pow2(shift - 1) <= size
    {
      if U32(Pow2(shift)) > size {
        break;
      }
      Pow2Monotone(shift, 31);
      shift := shift + 1;
    }
    e := shift - 1;
    if shift < MAXEXP {
      Pow2Monotone(shift, 31);
    }
    Log2Unique(size, e);
  }

  /** Bucket 8 is for less than 512 bytes, bucket `i` above it for 2^i up to 2^(i+1). */
  ghost predicate SizeClass(i: int, n: int) {
    if n < 256 then i == 8 else 0 <= i && Pow2(i) <= n < Pow2(i + 1)
  }

  /** The exponent raised to the smallest bucket is the only size class of a number. */
  lemma ClassExactly(n: nat, i: int)
    requires n < MOD32
    ensures SizeClass(i, n) <==> i == if ExpOf(n) < MINEXP then MINEXP else ExpOf(n)
  {
    ExpOfRange(n);
    if n >= 256 && 0 <= i {
      Log2Unique(n, i);
    }
  }

  /** The bucket a free tag of `realSize` bytes belongs to. */
  function Bucket(realSize: int): (i: int)
    requires 32 <= realSize < MOD32
    ensures MINEXP <= i < MAXEXP
  {
    ExpOfRange(realSize - 32);
    if ExpOf(realSize - 32) < MINEXP then MINEXP else ExpOf(realSize - 32)
  }

  /** Same bucket for request and tag bounds the excess below 2^31. */
  lemma SameBucketExcess(size: nat, realSize: nat)
    requires size < MOD32 && 32 <= realSize < MOD32
    requires Bucket(realSize) == if ExpOf(size) < MINEXP then MINEXP else ExpOf(size)
    ensures realSize - 32 - size < HALF32
  {
    hide Log2, Pow2;
    Pow2Values();
    var i := Bucket(realSize);
    Pow2Monotone(i, 31);
    Pow2Double(i);
    ExpOfRange(realSize - 32);
    if i == MINEXP {
      assert realSize - 32 < 512;
    } else {
      assert Pow2(i) <= size && realSize - 32 < Pow2(i + 1);
    }
  }

  lemma Pow2Double(n: nat)
    ensures Pow2(n + 1) == 2 * Pow2(n)
  {
  }
}
