/** Which conversions `printf` understands and what each prints, character by character. */
module FormatTable {
  import opened Machine
  import opened Options
  import opened Digits
  import opened Formatting

  /** The format reads "%", the modifier `m` and then `c` at position `i`, and `m` is no longer than that. */
  ghost predicate Reads(fmt: string, i: nat, m: string, c: char) {
    && i < |fmt| && fmt[i] == '%'
    && (forall k :: 0 <= k < |m| ==> At(fmt, i + 1 + k) == m[k]) && At(fmt, i + 1 + |m|) == c
    && m in ["", "hh", "h", "l", "ll", "L", "j", "z", "t"]
    && (m == "" ==> c !in "hlLjzt%") && (m == "h" ==> c != 'h') && (m == "l" ==> c != 'l')
  }

  /** The conversions of the standard that are understood. */
  ghost predicate Understood(m: string, c: char) {
    || (c in "di" && m in ["", "hh", "h", "l", "ll", "j", "t"])
    || (c in "ouxXp" && m in ["", "hh", "h", "l", "ll", "j", "z", "t"])
    || c in "cs"
  }

  function Named(m: string): Length {
    if m == "hh" then ShortShort else if m == "h" then Short else if m == "l" then Long
    else if m == "ll" then LongLong else if m == "L" then LongDouble else if m == "j" then IntMax
    else if m == "z" then SizeT else if m == "t" then PtrDiff else Default
  }

  lemma ReadsModifier(fmt: string, i: nat, m: string, c: char)
    requires Reads(fmt, i, m, c)
    ensures Modifier(fmt, i + 1) == (Named(m), |m|) && At(fmt, i + 1) != '%'
  {
    if |m| >= 1 {
      assert At(fmt, i + 1 + 0) == m[0];
    }
    if |m| >= 2 {
      assert At(fmt, i + 1 + 1) == m[1];
    }
  }

  lemma UnderstoodExactly(m: string, c: char)
    requires m in ["", "hh", "h", "l", "ll", "L", "j", "z", "t"]
    ensures IsConversion(c, Named(m)) <==> Understood(m, c)
  {
  }

  /** An understood conversion takes one argument and prints what it makes of it. */
  lemma Converts(fmt: string, i: nat, m: string, c: char, args: seq<Arg>)
    requires Reads(fmt, i, m, c) && Understood(m, c)
    ensures i + 2 + |m| <= |fmt|
    ensures Interp(fmt, i, args, false) ==
      if args == [] || Converted(c, Named(m), args[0]).None? then None
      else Prepend(Converted(c, Named(m), args[0]).value, Interp(fmt, i + 2 + |m|, args[1..], false))
  {
    hide Interp, Converted, Pieces, Prepend, Modifier, Understood, IsConversion;
    ReadsModifier(fmt, i, m, c);
    UnderstoodExactly(m, c);
    ConvUnfolds(fmt, i, args, false);
  }

  /** Any other conversion is printed as it stands, and ends interpretation. */
  lemma OthersRejected(fmt: string, i: nat, m: string, c: char, args: seq<Arg>)
    requires Reads(fmt, i, m, c) && !Understood(m, c)
    ensures Interp(fmt, i, args, false) == Some(Unescape(fmt[i..]))
  {
    hide Interp, Modifier, Understood, IsConversion, Unescape;
    ReadsModifier(fmt, i, m, c);
    UnderstoodExactly(m, c);
    RejectionIsFinal(fmt, i, args);
  }

  /** Literal characters one by one instead of in runs. */
  lemma RunIsChars(fmt: string, from: nat, args: seq<Arg>, rejected: bool)
    requires from < |fmt|
    ensures var j := RunEnd(fmt, from + 1);
            Prepend(fmt[from..j], Interp(fmt, j, args, rejected))
            == Prepend([fmt[from]], Interp(fmt, from + 1, args, rejected))
  {
    var j := RunEnd(fmt, from + 1);
    if j == from + 1 {
      assert fmt[from..j] == [fmt[from]];
    } else {
      RunUnfolds(fmt, from + 1, args, rejected, from + 1, false);
      PrependTwice([fmt[from]], fmt[from + 1..j], Interp(fmt, j, args, rejected));
      assert fmt[from..j] == [fmt[from]] + fmt[from + 1..j];
    }
  }

  /** Any other character than a percent sign is copied, and two percent signs are one. */
  lemma LiteralPrints(fmt: string, i: nat, args: seq<Arg>, rejected: bool)
    requires i < |fmt| && (fmt[i] == '%' ==> i + 1 < |fmt| && fmt[i + 1] == '%')
    ensures fmt[i] != '%' ==>
      Interp(fmt, i, args, rejected) == Prepend([fmt[i]], Interp(fmt, i + 1, args, rejected))
    ensures fmt[i] == '%' ==>
      Interp(fmt, i, args, rejected) == Prepend("%", Interp(fmt, i + 2, args, rejected))
  {
    hide Interp, Prepend, RunEnd;
    var from := if fmt[i] == '%' then i + 1 else i;
    RunUnfolds(fmt, i, args, rejected, from, false);
    RunIsChars(fmt, from, args, rejected);
  }

  // ---------------------------------------------------------------- numerals

  /** The numeral of `v`: a sign only where it is negative, no leading zero, letters of one case. */
  ghost predicate IsNumeral(t: string, v: int, b: nat, upper: bool) {
    var d := if v < 0 && t != "" then t[1..] else t;
    && (v < 0 ==> t != "" && t[0] == '-')
    && d != "" && (|d| > 1 ==> d[0] != '0') && NumeralValue(d, b) == (if v < 0 then -v else v)
    && forall k :: 0 <= k < |d| ==>
         && ('0' <= d[k] <= '9' || (if upper then 'A' <= d[k] <= 'F' else 'a' <= d[k] <= 'f'))
         && DigitValue(d[k]) < b
  }

  lemma {:induction false} NoLeadingZero(v: nat, b: nat)
    requires b >= 2
    ensures v > 0 ==> DigitsOf(v, b)[0] != 0
    ensures v == 0 ==> DigitsOf(v, b) == [0]
    decreases v
  {
    if v >= b {
      NoLeadingZero(Quot(v, b), b);
    }
  }

  lemma DigitsAreNumeral(v: nat, c: char)
    ensures IsNumeral(DigitText(v, Base(c), DigitSet(c)), v, Base(c), c == 'X')
  {
    hide NumeralValue, DigitsOf;
    var t, ds := DigitText(v, Base(c), DigitSet(c)), DigitsOf(v, Base(c));
    UnsignedText(v, Base(c), DigitSet(c));
    NoLeadingZero(v, Base(c));
    forall k | 0 <= k < |t|
      ensures '0' <= t[k] <= '9' || (if c == 'X' then 'A' <= t[k] <= 'F' else 'a' <= t[k] <= 'f')
      ensures DigitValue(t[k]) < Base(c) && (t[k] == '0' <==> ds[k] == 0)
    {
      LetterOf(ds[k]);
      DigitReadsBack(ds[k], DigitSet(c));
    }
  }

  lemma Congruent32(n: int)
    ensures (n - U32(n)) % MOD32 == 0 && (n - Signed32(U32(n))) % MOD32 == 0
  {
    assert n - U32(n) == MOD32 * (n / MOD32);
    assert n - (U32(n) - MOD32) == MOD32 * (n / MOD32 + 1);
  }

  lemma Congruent64(n: int)
    ensures (n - U64(n)) % MOD64 == 0 && (n - Signed64(n)) % MOD64 == 0
  {
    assert n - U64(n) == MOD64 * (n / MOD64);
    assert n - (U64(n) - MOD64) == MOD64 * (n / MOD64 + 1);
  }

  /** Widening a signed 32-bit number to 64 unsigned bits. */
  lemma Widened(w: int)
    requires -HALF32 <= w < HALF32
    ensures U64(w) == if w < 0 then w + MOD64 else w
  {
  }

  // ---------------------------------------------------------------- what each conversion prints

  /** What is printed for the conversion at `i`, before the rest of the format and of the arguments. */
  ghost predicate Prints(fmt: string, i: nat, m: string, arg: Arg, rest: seq<Arg>, t: string) {
    && i + 2 + |m| <= |fmt|
    && Interp(fmt, i, [arg] + rest, false) == Prepend(t, Interp(fmt, i + 2 + |m|, rest, false))
  }

  lemma ConvertsTo(fmt: string, i: nat, m: string, c: char, arg: Arg, rest: seq<Arg>, t: string)
    requires Reads(fmt, i, m, c) && Understood(m, c) && Converted(c, Named(m), arg) == Some(t)
    ensures Prints(fmt, i, m, arg, rest, t)
  {
    hide Interp, Converted, Prepend, Reads, Understood;
    Converts(fmt, i, m, c, [arg] + rest);
    assert ([arg] + rest)[1..] == rest;
  }

  /** `%d` and `%i` print the decimal numeral of the argument, reduced to the signed type of the modifier. */
  lemma SignedPrints(fmt: string, i: nat, m: string, c: char, n: int, rest: seq<Arg>) returns (t: string, v: int)
    requires Reads(fmt, i, m, c) && c in "di" && m in ["", "hh", "h", "l", "ll", "j", "t"]
    ensures Prints(fmt, i, m, Num(n), rest, t) && IsNumeral(t, v, 10, false)
    ensures if m == "ll" || m == "j" then
              -0x8000_0000_0000_0000 <= v < 0x8000_0000_0000_0000 && (n - v) % 0x1_0000_0000_0000_0000 == 0
            else -0x8000_0000 <= v < 0x8000_0000 && (n - v) % 0x1_0000_0000 == 0
  {
    hide Reads, Prints, IsNumeral, DigitText, U32, U64, Signed32, Signed64;
    v := FetchSigned(Named(m), n);
    t := NumberText(c, Named(m), n);
    Congruent32(n);
    Congruent64(n);
    ConvertsTo(fmt, i, m, c, Num(n), rest, t);
    MagnitudeOfSigned(v);
    SignedNumeral(c, v);
  }

  lemma SignedNumeral(c: char, v: int)
    requires c in "di"
    ensures var d := DigitText(if v < 0 then -v else v, Base(c), DigitSet(c));
            IsNumeral((if v < 0 then "-" else "") + d, v, 10, false)
  {
    hide DigitText, NumeralValue, IsNumeral;
    var d := DigitText(if v < 0 then -v else v, Base(c), DigitSet(c));
    DigitsAreNumeral(if v < 0 then -v else v, c);
    if v < 0 {
      MinusNumeral(d, -v);
    } else {
      assert "" + d == d;
    }
  }

  lemma MinusNumeral(d: string, v: int)
    requires v > 0 && IsNumeral(d, v, 10, false)
    ensures IsNumeral("-" + d, -v, 10, false)
  {
    assert ("-" + d)[1..] == d;
  }

  /**
   `%o`, `%u`, `%x`, `%X` and `%p` print the numeral in base 8, 10, 16, 16 and 10 of the argument, reduced
   to the unsigned type of the modifier.
   */
  lemma UnsignedPrints(fmt: string, i: nat, m: string, c: char, n: int, rest: seq<Arg>) returns (t: string, v: nat)
    requires Reads(fmt, i, m, c) && c in "ouxXp" && m in ["", "hh", "h", "l", "ll", "j", "z", "t"]
    ensures Prints(fmt, i, m, Num(n), rest, t)
    ensures IsNumeral(t, v, if c == 'o' then 8 else if c in "xX" then 16 else 10, c == 'X')
    ensures FetchedAs(m, n, v)
  {
    hide Reads, Prints, IsNumeral, DigitText, FetchedAs, FetchUnsigned;
    v := FetchUnsigned(Named(m), n);
    t := NumberText(c, Named(m), n);
    FetchedUnsigned(m, n);
    ConvertsTo(fmt, i, m, c, Num(n), rest, t);
    DigitsAreNumeral(v, c);
    assert t == "" + DigitText(v, Base(c), DigitSet(c)) == DigitText(v, Base(c), DigitSet(c));
  }

  /** `v` is `n` modulo 2^32, for `ll` and `j` modulo 2^64, for `t` its signed low half modulo 2^64. */
  ghost predicate FetchedAs(m: string, n: int, v: nat) {
    if m == "ll" || m == "j" then v < 0x1_0000_0000_0000_0000 && (n - v) % 0x1_0000_0000_0000_0000 == 0
    else if m != "t" then v < 0x1_0000_0000 && (n - v) % 0x1_0000_0000 == 0
    else if v < 0x8000_0000 then (n - v) % 0x1_0000_0000 == 0
    else
      && 0xffff_ffff_8000_0000 <= v < 0x1_0000_0000_0000_0000
      && (n - (v - 0x1_0000_0000_0000_0000)) % 0x1_0000_0000 == 0
  }

  lemma FetchedUnsigned(m: string, n: int)
    requires m in ["", "hh", "h", "l", "ll", "j", "z", "t"]
    ensures FetchedAs(m, n, FetchUnsigned(Named(m), n))
  {
    hide U32, Signed32, U64;
    Congruent32(n);
    Congruent64(n);
    Widened(Signed32(U32(n)));
  }

  /** `%c` prints one character, the low byte of its argument, and `%s` the text. */
  lemma CharacterPrints(fmt: string, i: nat, m: string, n: int, rest: seq<Arg>) returns (x: char)
    requires Reads(fmt, i, m, 'c')
    ensures Prints(fmt, i, m, Num(n), rest, [x]) && x as int < 256 && (n - x as int) % 256 == 0
  {
    hide Reads, Prints;
    x := (U32(n) % 256) as char;
    LowByte(n);
    ConvertsTo(fmt, i, m, 'c', Num(n), rest, [x]);
  }

  lemma LowByte(n: int)
    ensures (n - U32(n) % 256) % 256 == 0
  {
    LowByteOf(n, n / MOD32, U32(n));
  }

  lemma LowByteOf(n: int, q: int, u: nat)
    requires n == MOD32 * q + u
    ensures (n - u % 256) % 256 == 0
  {
    var k := 0x100_0000 * q + u / 256;
    assert n - u % 256 == 256 * k;
    assert 256 * k % 256 == 0;
  }

  lemma TextPrints(fmt: string, i: nat, m: string, s: string, rest: seq<Arg>)
    requires Reads(fmt, i, m, 's')
    ensures Prints(fmt, i, m, Text(s), rest, s)
  {
    hide Reads, Prints;
    ConvertsTo(fmt, i, m, 's', Text(s), rest, s);
  }

  // ---------------------------------------------------------------- the count returned

  /** The number of characters that conversions print. */
  ghost function ConvertedTotal(ps: seq<Piece>, args: seq<Arg>): nat
    decreases |ps|
  {
    if ps == [] then 0
    else match ps[0]
      case Chars(_) => ConvertedTotal(ps[1..], args)
      case Conv(c, length) =>
        if args == [] || Converted(c, length, args[0]).None? then 0
        else |Converted(c, length, args[0]).value| + ConvertedTotal(ps[1..], args[1..])
  }

  lemma {:induction false} RenderedLength(ps: seq<Piece>, args: seq<Arg>)
    requires Render(ps, args).Some?
    ensures |Render(ps, args).value| == LiteralTotal(ps) + ConvertedTotal(ps, args)
    decreases |ps|
  {
    hide Converted;
    if ps != [] {
      RenderedLength(ps[1..], if ps[0].Conv? then args[1..] else args);
    }
  }

  /** What `printf` counts is all it prints except what conversions print. */
  lemma CountedCharacters(fmt: string, args: seq<Arg>)
    requires Interp(fmt, 0, args, false).Some?
    ensures var ps := Pieces(fmt, 0, false);
            LiteralTotal(ps) == |Interp(fmt, 0, args, false).value| - ConvertedTotal(ps, args)
  {
    hide Interp, Pieces, Render, LiteralTotal, ConvertedTotal;
    InterpRenders(fmt, 0, args, false);
    RenderedLength(Pieces(fmt, 0, false), args);
  }
}
