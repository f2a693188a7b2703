/** `print_dec` and `print_hex` of `log.c`. */
module LogNumbers {
  import opened Machine
  import opened Digits

  const MAX32 := 0xffff_ffff

  /** The bound `print_dec` compares with after `k` steps: nines, modulo 2^32. */
  function Nines(k: nat): (r: int)
    ensures 0 <= r <= MAX32
  {
    U32(Pow(10, k) - 1)
  }

  lemma {:induction false} PowersOfTen(k: nat)
    ensures Pow(10, k) == Pow(2, k) * Pow(5, k)
  {
    if k > 0 {
      PowersOfTen(k - 1);
      var p, q := Pow(2, k - 1), Pow(5, k - 1);
      assert (p * q) * 10 == (p * 2) * (q * 5);
    }
  }

  /** 2^32 divides 10^32, so the wrapped bound reaches its maximum after at most 32 steps. */
  lemma NinesReachMax()
    ensures Nines(32) == MAX32
  {
    hide Pow;
    PowersOfTen(32);
    TwoTo32();
    BelowMultiple(Pow(5, 32));
  }

  lemma TwoTo32()
    ensures Pow(2, 32) == MOD32
  {
    assert Pow(2, 5) == 0x20;
    assert Pow(2, 10) == 0x400;
    assert Pow(2, 15) == 0x8000;
    assert Pow(2, 20) == 0x10_0000;
    assert Pow(2, 25) == 0x200_0000;
    assert Pow(2, 30) == 0x4000_0000;
  }

  lemma BelowMultiple(q: nat)
    requires q >= 1
    ensures U32(MOD32 * q - 1) == MAX32
  {
    assert MOD32 * q - 1 == MOD32 * (q - 1) + MAX32;
  }

  lemma NinesStep(k: nat)
    ensures Nines(k + 1) == U32(U32(Nines(k) * 10) + 9)
  {
    hide Pow, U32;
    var x := Pow(10, k) - 1;
    NinesDouble(k);
    ShiftIn(x);
  }

  lemma NinesDouble(k: nat)
    ensures Pow(10, k + 1) - 1 == (Pow(10, k) - 1) * 10 + 9
  {
  }

  lemma AddMultiple(y: int, m: int)
    ensures U32(y + m * MOD32) == U32(y)
  {
  }

  /** Appending a nine commutes with wrapping. */
  lemma ShiftIn(x: int)
    ensures U32(x * 10 + 9) == U32(U32(U32(x) * 10) + 9)
  {
    var m, u := x / MOD32, U32(x);
    var n, v := u * 10 / MOD32, U32(u * 10);
    AddMultiple(u * 10 + 9, m * 10);
    AddMultiple(v + 9, n);
  }

  lemma FirstNines()
    ensures Nines(1) == 9
  {
    assert Pow(10, 1) == 10;
  }

  /** The number of digits `print_dec` settles on: the first bound that is not below the value. */
  function DecWidth(value: nat, k: nat): (n: nat)
    requires value <= MAX32 && k <= 32
    ensures k <= n <= 32 && value <= Nines(n) && forall j :: k <= j < n ==> Nines(j) < value
    decreases 32 - k
  {
    NinesReachMax();
    if value <= Nines(k) then k else DecWidth(value, k + 1)
  }

  /** Enough places: nothing of the value is cut off. */
  lemma DecWidthSuffices(value: nat)
    requires value <= MAX32
    ensures value < Pow(10, DecWidth(value, 1))
  {
    var n := DecWidth(value, 1);
    assert U32(Pow(10, n) - 1) <= Pow(10, n) - 1;
  }

  lemma SmallNines()
    ensures Pow(10, 9) == 1000000000 && Pow(10, 10) == 10000000000
    ensures Nines(10) == 1410065407
    ensures forall k :: 0 <= k <= 9 ==> Nines(k) == Pow(10, k) - 1
  {
    assert Pow(10, 5) == 100000;
    assert Pow(10, 9) == 1000000000;
    assert Pow(10, 10) == 10000000000;
    forall k | 0 <= k <= 9
      ensures Nines(k) == Pow(10, k) - 1
    {
      PowMonotone(10, k, 9);
    }
  }

  /** The digit count is minimal exactly up to 10^10 - 1 modulo 2^32. */
  lemma DecWidthMinimal(value: nat)
    requires value <= MAX32
    ensures DecWidth(value, 1) == |DigitsOf(value, 10)| <==> value <= 1410065407
  {
    SmallNines();
    var n, d := DecWidth(value, 1), |DigitsOf(value, 10)|;
    DecWidthSuffices(value);
    DigitsFit(value, 10, n);
    DigitsFit(value, 10, 10);
    if value < 1000000000 {
      DigitsFit(value, 10, 9);
      DigitsDecode(value, 10);
      ValueBound(DigitsOf(value, 10), 10);
      assert value <= Nines(d);
      assert n == d;
    } else {
      if d <= 9 {
        DigitsDecode(value, 10);
        ValueBound(DigitsOf(value, 10), 10);
        assert false;
      }
      assert d == 10;
    }
  }

  /** What is written: zeros up to the width, then the digits. */
  function Shown(value: nat, b: nat, n: nat, width: int): (ds: seq<nat>)
    requires b >= 2
    ensures |ds| == if width > n then width else n
  {
    seq(if width > n then width - n else 0, _ => 0) + Padded(value, b, n)
  }

  lemma {:induction false} ZerosInFront(z: nat, ds: seq<nat>, b: nat)
    ensures Value(seq(z, _ => 0) + ds, b) == Value(ds, b)
    decreases z + |ds|
  {
    var zs := seq(z, _ => 0);
    if ds == [] {
      assert zs + ds == zs;
      if z > 0 {
        ZerosInFront(z - 1, [], b);
        assert zs[..z - 1] == seq(z - 1, _ => 0) == seq(z - 1, _ => 0) + [];
      }
    } else {
      var n := |ds| - 1;
      ZerosInFront(z, ds[..n], b);
      assert (zs + ds)[..z + n] == zs + ds[..n];
    }
  }

  /** Whatever the padding and however many digits, the text stands for the value. */
  lemma ShownDecodes(value: nat, b: nat, n: nat, width: int)
    requires b >= 2 && value < Pow(b, n)
    ensures Value(Shown(value, b, n, width), b) == value
  {
    ZerosInFront(if width > n then width - n else 0, Padded(value, b, n), b);
    PaddedDecode(value, b, n);
  }

  const DECIMAL: string := "0123456789"
  const HEX: string := "0123456789abcdef"

  /** The characters that stand for the digits. */
  lemma DigitCharacters(d: nat)
    requires d < 16
    ensures d < 10 ==> DECIMAL[d] as int == HEX[d] as int == '0' as int + d
    ensures d >= 10 ==> HEX[d] as int == 'a' as int + d - 10
  {
  }

  /** The buffer holds these digits from `at` on and is otherwise as before. */
  ghost predicate Written(before: seq<char>, after: seq<char>, at: nat, ds: seq<nat>, digits: string) {
    && |after| == |before| && at + |ds| <= |before|
    && (forall k :: 0 <= k < |ds| ==> ds[k] < |digits|)
    && (forall k :: 0 <= k < |before| ==>
          after[k] == if at <= k < at + |ds| then digits[ds[k - at]] else before[k])
  }

  /** The loop of `print_dec` that settles on a digit count. */
  method DecWidthLoop(value: nat) returns (nWidth: nat)
    requires value <= MAX32
    ensures nWidth == DecWidth(value, 1)
  {
    hide Pow, Nines, U32, DecWidth;
    FirstNines();
    ghost var w := DecWidth(value, 1);
    var i := 9;
    nWidth := 1;
    while value > i && i < MAX32
      invariant 1 <= nWidth <= w && i == Nines(nWidth)
      decreases w - nWidth
    {
      NinesStep(nWidth);
      nWidth := nWidth + 1;
      i := U32(U32(i * 10) + 9);
    }
  }

  /** The padding loop: `count` zeros from `ptr` on. */
  method PadZeros(buf: array<char>, ptr: nat, count: int) returns (p: nat)
    requires ptr + count <= buf.Length
    modifies buf
    ensures p == ptr + if count > 0 then count else 0
    ensures forall k :: 0 <= k < buf.Length ==> buf[k] == if ptr <= k < p then '0' else old(buf[k])
  {
    p := ptr;
    var printed := 0;
    while printed < count
      invariant 0 <= printed && p == ptr + printed && (printed <= count || printed == 0)
      invariant forall k :: 0 <= k < buf.Length ==> buf[k] == if ptr <= k < p then '0' else old(buf[k])
    {
      buf[p] := '0';
      p := p + 1;
      printed := printed + 1;
    }
  }

  /** `print_dec`. */
  method PrintDec(value: nat, width: nat, buf: array<char>, ptr: nat) returns (newPtr: nat)
    requires value <= MAX32 && width <= MAX32
    requires ptr + |Shown(value, 10, DecWidth(value, 1), width)| <= buf.Length
    modifies buf
    ensures var ds := Shown(value, 10, DecWidth(value, 1), width);
            newPtr == ptr + |ds| && Written(old(buf[..]), buf[..], ptr, ds, DECIMAL) && Value(ds, 10) == value
  {
    hide Nines, Padded, Shown, Written, DecWidth, Pow, Value;
    DecWidthSuffices(value);
    ShownDecodes(value, 10, DecWidth(value, 1), width);
    var nWidth := DecWidthLoop(value);
    var p := PadZeros(buf, ptr, width - nWidth);
    ghost var mid := buf[..];
    FillDigits(buf, p, nWidth, value, 10, DECIMAL);
    newPtr := p + nWidth;
    assert DECIMAL[0] == '0';
    FilledIsWritten(old(buf[..]), mid, buf[..], ptr, p, value, 10, nWidth, width, DECIMAL);
  }

  lemma FilledIsWritten(before: seq<char>, mid: seq<char>, after: seq<char>, at: nat, p: nat,
                        value: nat, b: nat, n: nat, width: int, digits: string)
    requires b >= 2 && |digits| >= b && digits[0] == '0' && |before| == |mid| == |after|
    requires p - at == (if width > n then width - n else 0) && p + n <= |before|
    requires forall k :: 0 <= k < |mid| ==> mid[k] == if at <= k < p then '0' else before[k]
    requires forall k :: 0 <= k < n ==> after[p + k] == digits[Padded(value, b, n)[k]]
    requires forall k :: 0 <= k < |after| && !(p <= k < p + n) ==> after[k] == mid[k]
    ensures Written(before, after, at, Shown(value, b, n, width), digits)
  {
    var ds, tail := Shown(value, b, n, width), Padded(value, b, n);
    forall k | 0 <= k < |before|
      ensures after[k] == if at <= k < at + |ds| then digits[ds[k - at]] else before[k]
    {
      if p <= k < p + n {
        assert after[p + (k - p)] == digits[tail[k - p]];
        assert ds[k - at] == tail[k - p];
      }
    }
  }

  // ---------------------------------------------------------------- hexadecimal

  /** Place `k` of the last `n` digits, counted from the left, by shifting. */
  lemma {:induction false} PaddedAt(v: nat, b: nat, n: nat, k: nat)
    requires b >= 2 && k < n
    ensures Padded(v, b, n)[k] == Rem(Shift(v, b, n - 1 - k), b)
    decreases n
  {
    hide Quot, Rem;
    if k < n - 1 {
      PaddedAt(Quot(v, b), b, n - 1, k);
    }
  }

  /** `v >> (4 * i)` for base 16. */
  function Shift(v: nat, b: nat, i: nat): nat
    requires b >= 2
    decreases i
  {
    if i == 0 then v else Shift(Quot(v, b), b, i - 1)
  }

  /** Bound of the counting loop of `print_hex` after `k` steps. */
  function Fs(k: nat): (r: int)
    ensures 0 <= r <= MAX32
  {
    U32(Pow(16, k) - 1)
  }

  lemma FsStep(k: nat)
    requires k <= 7
    ensures Pow(16, k + 1) <= MOD32 && Fs(k) == Pow(16, k) - 1 && Fs(k + 1) == Pow(16, k + 1) - 1
    ensures Fs(k + 1) == U32(U32(Fs(k) * 16) + 15)
  {
    assert Pow(16, 4) == 0x1_0000;
    assert Pow(16, 8) == MOD32;
    PowMonotone(16, k + 1, 8);
    PowMonotone(16, k, k + 1);
  }

  /** The counting loop of `print_hex` finds the minimal number of digits. */
  method HexWidthLoop(value: nat) returns (nWidth: nat)
    requires value <= MAX32
    ensures nWidth == |DigitsOf(value, 16)| <= 8 && value < Pow(16, nWidth)
  {
    assert Pow(16, 1) == 16;
    FsStep(7);
    hide Pow;
    DigitsFit(value, 16, 8);
    DigitsDecode(value, 16);
    ValueBound(DigitsOf(value, 16), 16);
    ghost var w := |DigitsOf(value, 16)|;
    var j := 15;
    nWidth := 1;
    while value > j && j < MAX32
      invariant 1 <= nWidth <= w && j == Fs(nWidth) == Pow(16, nWidth) - 1
      decreases w - nWidth
    {
      FsStep(nWidth);
      if nWidth == w {
        assert false;
      }
      nWidth := nWidth + 1;
      j := U32(U32(j * 16) + 15);
    }
    DigitsFit(value, 16, nWidth);
  }

  /** The width `print_hex` pads to: eight when none is given, none when the cast makes it negative. */
  function HexPad(width: nat): (r: int)
    requires width <= MAX32
    ensures width == 0 ==> r == 8
    ensures 0 < width < 0x8000_0000 ==> r == width
    ensures width >= 0x8000_0000 ==> r < 0
  {
    if Signed32(width) == 0 then 8 else Signed32(width)
  }

  /** The digit loop of `print_hex`, from the left. */
  method HexDigits(value: nat, nWidth: nat, buf: array<char>, ptr: nat)
    requires ptr + nWidth <= buf.Length
    modifies buf
    ensures forall k :: 0 <= k < nWidth ==> buf[ptr + k] == HEX[Padded(value, 16, nWidth)[k]]
    ensures forall k :: 0 <= k < buf.Length && !(ptr <= k < ptr + nWidth) ==> buf[k] == old(buf[k])
  {
    var i, p := nWidth, ptr;
    while i > 0
      invariant 0 <= i <= nWidth && p == ptr + (nWidth - i)
      invariant forall k :: 0 <= k < nWidth - i ==> buf[ptr + k] == HEX[Padded(value, 16, nWidth)[k]]
      invariant forall k :: 0 <= k < buf.Length && !(ptr <= k < ptr + nWidth) ==> buf[k] == old(buf[k])
    {
      hide Padded, Quot, Rem;
      i := i - 1;
      PaddedAt(value, 16, nWidth, nWidth - 1 - i);
      buf[p] := HEX[Rem(Shift(value, 16, i), 16)];
      p := p + 1;
    }
  }

  /** `print_hex`. */
  method PrintHex(value: nat, width: nat, buf: array<char>, ptr: nat) returns (newPtr: nat)
    requires value <= MAX32 && width <= MAX32
    requires ptr + |Shown(value, 16, |DigitsOf(value, 16)|, HexPad(width))| <= buf.Length
    modifies buf
    ensures var n := |DigitsOf(value, 16)|;
            var ds := Shown(value, 16, n, HexPad(width));
            newPtr == ptr + |ds| && Written(old(buf[..]), buf[..], ptr, ds, HEX) && Value(ds, 16) == value
  {
    hide Padded, Shown, Written, DigitsOf, Pow, Value;
    var i := Signed32(width);
    if i == 0 {
      i := 8;
    }
    var nWidth := HexWidthLoop(value);
    ShownDecodes(value, 16, nWidth, HexPad(width));
    var p := PadZeros(buf, ptr, i - nWidth);
    ghost var mid := buf[..];
    HexDigits(value, nWidth, buf, p);
    newPtr := p + nWidth;
    assert HEX[0] == '0';
    FilledIsWritten(old(buf[..]), mid, buf[..], ptr, p, value, 16, nWidth, i, HEX);
  }
}
