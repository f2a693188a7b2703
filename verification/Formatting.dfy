/** The format loop of `printf.c`, against a pure interpreter of formats. */
module Formatting {
  import opened Machine
  import opened Options
  import opened Digits

  /** A variable argument: a number of any integer type, or a string up to its terminator. */
  datatype Arg = Num(n: int) | Text(s: string)

  datatype Length = ShortShort | Short | Default | Long | LongLong | LongDouble | IntMax | SizeT | PtrDiff

  /** Reading the format as a C string. What lies behind the terminator never decides anything. */
  function At(fmt: string, i: nat): char {
    if i < |fmt| then fmt[i] else '\0'
  }

  // ---------------------------------------------------------------- length modifiers

  const MODIFIERS: seq<(string, Length)> := [
    ("hh", ShortShort), ("h", Short), ("", Default), ("l", Long), ("ll", LongLong),
    ("L", LongDouble), ("j", IntMax), ("z", SizeT), ("t", PtrDiff)]

  ghost predicate Matches(fmt: string, i: nat, name: string) {
    forall n :: 0 <= n < |name| ==> At(fmt, i + n) == name[n]
  }

  /** The longest modifier at position `i`, and its length. */
  function Modifier(fmt: string, i: nat): (Length, nat) {
    var c, d := At(fmt, i), At(fmt, i + 1);
    if c == 'h' then (if d == 'h' then (ShortShort, 2) else (Short, 1))
    else if c == 'l' then (if d == 'l' then (LongLong, 2) else (Long, 1))
    else if c == 'L' then (LongDouble, 1)
    else if c == 'j' then (IntMax, 1)
    else if c == 'z' then (SizeT, 1)
    else if c == 't' then (PtrDiff, 1)
    else (Default, 0)
  }

  /** Among the first `n` rows of the table, row `j` is a match and none that matches is longer. */
  ghost predicate LongestAmong(fmt: string, i: nat, n: nat, j: nat)
    requires n <= |MODIFIERS|
  {
    && j < n && Matches(fmt, i, MODIFIERS[j].0)
    && forall k :: 0 <= k < n && Matches(fmt, i, MODIFIERS[k].0) ==> |MODIFIERS[k].0| <= |MODIFIERS[j].0|
  }

  /** The longest match is unique and is what `Modifier` says. */
  lemma LongestIsModifier(fmt: string, i: nat, j: nat)
    requires LongestAmong(fmt, i, |MODIFIERS|, j)
    ensures Modifier(fmt, i) == (MODIFIERS[j].1, |MODIFIERS[j].0|)
  {
    assert MODIFIERS[0].0 == "hh" && MODIFIERS[4].0 == "ll";
    var c, d := At(fmt, i), At(fmt, i + 1);
    assert At(fmt, i + 0) == c;
    if c == 'h' && d == 'h' {
      assert Matches(fmt, i, MODIFIERS[0].0);
    } else if c == 'h' {
      assert Matches(fmt, i, MODIFIERS[1].0);
    } else if c == 'l' && d == 'l' {
      assert Matches(fmt, i, MODIFIERS[4].0);
    } else if c == 'l' {
      assert Matches(fmt, i, MODIFIERS[3].0);
    } else if c == 'L' {
      assert Matches(fmt, i, MODIFIERS[5].0);
    } else if c == 'j' {
      assert Matches(fmt, i, MODIFIERS[6].0);
    } else if c == 'z' {
      assert Matches(fmt, i, MODIFIERS[7].0);
    } else if c == 't' {
      assert Matches(fmt, i, MODIFIERS[8].0);
    }
    assert |MODIFIERS[j].0| >= 1 ==> MODIFIERS[j].0[0] == c;
    assert |MODIFIERS[j].0| >= 2 ==> MODIFIERS[j].0[1] == d;
  }

  /** The table loop that picks the length modifier. */
  method ScanLength(fmt: string, pos: nat) returns (length: Length, lengthLength: nat)
    ensures (length, lengthLength) == Modifier(fmt, pos)
  {
    length, lengthLength := Default, 0;
    ghost var best := 2;
    var i := 0;
    while i < |MODIFIERS|
      invariant 0 <= i <= |MODIFIERS| && best < |MODIFIERS|
      invariant (length, lengthLength) == (MODIFIERS[best].1, |MODIFIERS[best].0|)
      invariant Matches(fmt, pos, MODIFIERS[best].0)
      invariant forall k :: 0 <= k < i && Matches(fmt, pos, MODIFIERS[k].0) ==> |MODIFIERS[k].0| <= lengthLength
    {
      var name := MODIFIERS[i].0;
      var nameLength := |name|;
      if nameLength >= lengthLength {
        var different := false;
        var n := 0;
        while n < nameLength
          invariant 0 <= n <= nameLength
          invariant different <==> exists k :: 0 <= k < n && At(fmt, pos + k) != name[k]
        {
          if At(fmt, pos + n) != name[n] {
            different := true;
          }
          n := n + 1;
        }
        if !different {
          length, lengthLength, best := MODIFIERS[i].1, nameLength, i;
        }
      }
      i := i + 1;
    }
    LongestIsModifier(fmt, pos, best);
  }

  // ---------------------------------------------------------------- numbers

  const LOWER: string := "0123456789abcdef"
  const UPPER: string := "0123456789ABCDEF"
  const HALF64 := 0x8000_0000_0000_0000

  function U64(x: int): (r: int)
    ensures 0 <= r < MOD64
  {
    x % MOD64
  }

  function Signed64(x: int): (r: int)
    ensures -HALF64 <= r < HALF64
  {
    if U64(x) < HALF64 then U64(x) else U64(x) - MOD64
  }

  predicate IsSigned(c: char) {
    c == 'd' || c == 'i'
  }

  predicate IsNumeric(c: char) {
    IsSigned(c) || c == 'o' || c == 'u' || c == 'x' || c == 'X' || c == 'p'
  }

  /** The length modifiers a numeric conversion accepts. */
  predicate Accepts(c: char, length: Length) {
    if IsSigned(c) then length != LongDouble && length != SizeT else length != LongDouble
  }

  /** The argument types of 64 bits on i386. */
  predicate IsWide(length: Length) {
    length == LongLong || length == IntMax
  }

  /** `va_arg` at the signed type the modifier names. */
  function FetchSigned(length: Length, n: int): (r: int)
    ensures -HALF64 <= r < HALF64
  {
    if IsWide(length) then Signed64(n) else Signed32(U32(n))
  }

  /** `va_arg` at the unsigned type the modifier names; `ptrdiff_t` is fetched signed and widened. */
  function FetchUnsigned(length: Length, n: int): (r: nat)
    ensures r < MOD64
  {
    if IsWide(length) then U64(n) else if length == PtrDiff then U64(Signed32(U32(n))) else U32(n)
  }

  function Base(c: char): (b: nat)
    ensures b == 8 || b == 10 || b == 16
  {
    if c == 'x' || c == 'X' then 16 else if c == 'o' then 8 else 10
  }

  function DigitSet(c: char): (ds: string)
    ensures |ds| == 16
  {
    if c == 'X' then UPPER else LOWER
  }

  /** The unsigned number that is converted, and whether a minus sign precedes it. */
  function Magnitude(c: char, length: Length, n: int): (r: (bool, nat))
    ensures r.1 < MOD64
  {
    if IsSigned(c) then
      var v := FetchSigned(length, n);
      (v < 0, if v < 0 then U64(-U64(v)) else U64(v))
    else (false, FetchUnsigned(length, n))
  }

  function DigitText(v: nat, b: nat, digits: string): (t: string)
    requires 2 <= b <= |digits|
    ensures |t| == |DigitsOf(v, b)|
    ensures forall k :: 0 <= k < |t| ==> t[k] == digits[DigitsOf(v, b)[k]]
  {
    var ds := DigitsOf(v, b);
    seq(|ds|, k requires 0 <= k < |ds| => digits[ds[k]])
  }

  function NumberText(c: char, length: Length, n: int): string {
    var (negative, v) := Magnitude(c, length, n);
    (if negative then "-" else "") + DigitText(v, Base(c), DigitSet(c))
  }

  /** What a digit character stands for. */
  function DigitValue(c: char): int {
    if '0' <= c <= '9' then c as int - '0' as int
    else if 'a' <= c <= 'f' then c as int - 'a' as int + 10
    else if 'A' <= c <= 'F' then c as int - 'A' as int + 10
    else -1
  }

  /** Reading a numeral, with an optional minus sign. */
  function Numeral(t: string, b: nat): int {
    if t != "" && t[0] == '-' then -NumeralValue(t[1..], b) else NumeralValue(t, b)
  }

  function NumeralValue(t: string, b: nat): int {
    if t == "" then 0 else NumeralValue(t[..|t| - 1], b) * b + DigitValue(t[|t| - 1])
  }

  lemma DigitReadsBack(d: nat, digits: string)
    requires d < 16 && (digits == LOWER || digits == UPPER)
    ensures DigitValue(digits[d]) == d && digits[d] != '-'
  {
  }

  lemma {:induction false} NumeralOfDigits(ds: seq<nat>, t: string, b: nat, digits: string)
    requires 2 <= b <= 16 && (digits == LOWER || digits == UPPER) && AreDigits(ds, b) && |t| == |ds|
    requires forall k :: 0 <= k < |t| ==> t[k] == digits[ds[k]]
    ensures NumeralValue(t, b) == Value(ds, b)
    ensures t != "" ==> t[0] != '-'
  {
    if t != "" {
      var n := |t| - 1;
      NumeralOfDigits(ds[..n], t[..n], b, digits);
      DigitReadsBack(ds[n], digits);
    }
  }

  lemma MagnitudeOfSigned(v: int)
    requires -HALF64 <= v < HALF64
    ensures (if v < 0 then U64(-U64(v)) else U64(v)) == if v < 0 then -v else v
  {
  }

  /** A signed conversion reads back as the value fetched, the most negative one included. */
  lemma SignedReadsBack(c: char, length: Length, n: int)
    requires IsSigned(c)
    ensures Numeral(NumberText(c, length, n), 10) == FetchSigned(length, n)
  {
    hide DigitText, NumeralValue, U64, FetchSigned;
    var v := FetchSigned(length, n);
    MagnitudeOfSigned(v);
    UnsignedText(Magnitude(c, length, n).1, 10, DigitSet(c));
    var t := DigitText(Magnitude(c, length, n).1, 10, DigitSet(c));
    if v < 0 {
      assert ("-" + t)[1..] == t;
    } else {
      assert "" + t == t;
    }
  }

  lemma UnsignedText(v: nat, b: nat, digits: string)
    requires 2 <= b <= 16 && (digits == LOWER || digits == UPPER)
    ensures var t := DigitText(v, b, digits); NumeralValue(t, b) == v && t[0] != '-'
  {
    NumeralOfDigits(DigitsOf(v, b), DigitText(v, b, digits), b, digits);
    DigitsDecode(v, b);
  }

  /** An unsigned conversion reads back as the value fetched. */
  lemma UnsignedReadsBack(c: char, length: Length, n: int)
    requires IsNumeric(c) && !IsSigned(c)
    ensures var b := if c == 'x' || c == 'X' then 16 else if c == 'o' then 8 else 10;
            Numeral(NumberText(c, length, n), b) == FetchUnsigned(length, n)
  {
    hide DigitText, NumeralValue, FetchUnsigned;
    UnsignedText(FetchUnsigned(length, n), Base(c), DigitSet(c));
    var t := DigitText(FetchUnsigned(length, n), Base(c), DigitSet(c));
    assert "" + t == t;
  }

  /** `%x` and `%X` differ in the case of their letters. */
  lemma HexLetters(c: char, length: Length, n: int, k: nat)
    requires c == 'x' || c == 'X'
    requires k < |NumberText(c, length, n)|
    ensures var d := NumberText(c, length, n)[k];
            '0' <= d <= '9' || (if c == 'X' then 'A' <= d <= 'F' else 'a' <= d <= 'f')
  {
    var v := FetchUnsigned(length, n);
    var t := DigitText(v, 16, DigitSet(c));
    assert NumberText(c, length, n) == "" + t == t;
    LetterOf(DigitsOf(v, 16)[k]);
  }

  lemma LetterOf(d: nat)
    requires d < 16
    ensures '0' <= LOWER[d] <= '9' || 'a' <= LOWER[d] <= 'f'
    ensures '0' <= UPPER[d] <= '9' || 'A' <= UPPER[d] <= 'F'
  {
  }

  // ---------------------------------------------------------------- the interpreter

  /** The end of the literal run: the next percent sign from `i` on, or the end. */
  function RunEnd(fmt: string, i: nat): (j: nat)
    requires i <= |fmt|
    ensures i <= j <= |fmt| && (j < |fmt| ==> fmt[j] == '%') && forall k :: i <= k < j ==> fmt[k] != '%'
    decreases |fmt| - i
  {
    if i == |fmt| || fmt[i] == '%' then i else RunEnd(fmt, i + 1)
  }

  /** What one conversion makes of its argument; `None` when the argument has the wrong type. */
  function Converted(c: char, length: Length, arg: Arg): Option<string> {
    if c == 's' then (if arg.Text? then Some(arg.s) else None)
    else if !arg.Num? then None
    else if c == 'c' then Some([(U32(arg.n) % 256) as char])
    else Some(NumberText(c, length, arg.n))
  }

  predicate IsConversion(c: char, length: Length) {
    c == 'c' || c == 's' || (IsNumeric(c) && Accepts(c, length))
  }

  function Prepend(s: string, rest: Option<string>): Option<string> {
    if rest.None? then None else Some(s + rest.value)
  }

  /** The output for the format from `i` on, or `None` when it asks for arguments it was not given. */
  function Interp(fmt: string, i: nat, args: seq<Arg>, rejected: bool): (r: Option<string>)
    requires i <= |fmt|
    decreases |fmt| - i
  {
    if i == |fmt| then Some("")
    else if fmt[i] != '%' then Literal(fmt, i, i, args, rejected)
    else if At(fmt, i + 1) == '%' then Literal(fmt, i, i + 1, args, rejected)
    else if rejected then Literal(fmt, i, i, args, true)
    else
      var (length, k) := Modifier(fmt, i + 1);
      var c := At(fmt, i + 1 + k);
      if IsConversion(c, length) then
        if args == [] || Converted(c, length, args[0]).None? then None
        else Prepend(Converted(c, length, args[0]).value, Interp(fmt, i + 2 + k, args[1..], false))
      else Literal(fmt, i, i, args, true)
  }

  /** A literal run: one character at `from` taken as it is, then everything up to the next percent sign. */
  function Literal(fmt: string, i: nat, from: nat, args: seq<Arg>, rejected: bool): Option<string>
    requires i <= from < |fmt|
    decreases |fmt| - i, 0
  {
    var j := RunEnd(fmt, from + 1);
    Prepend(fmt[from..j], Interp(fmt, j, args, rejected))
  }

  // ---------------------------------------------------------------- formats as pieces

  datatype Piece = Chars(text: string) | Conv(c: char, length: Length)

  /** A format taken apart, without looking at any argument. */
  function Pieces(fmt: string, i: nat, rejected: bool): seq<Piece>
    requires i <= |fmt|
    decreases |fmt| - i
  {
    if i == |fmt| then []
    else if fmt[i] != '%' then Run(fmt, i, i, rejected)
    else if At(fmt, i + 1) == '%' then Run(fmt, i, i + 1, rejected)
    else if rejected then Run(fmt, i, i, true)
    else
      var (length, k) := Modifier(fmt, i + 1);
      var c := At(fmt, i + 1 + k);
      if IsConversion(c, length) then [Conv(c, length)] + Pieces(fmt, i + 2 + k, false)
      else Run(fmt, i, i, true)
  }

  function Run(fmt: string, i: nat, from: nat, rejected: bool): seq<Piece>
    requires i <= from < |fmt|
    decreases |fmt| - i, 0
  {
    var j := RunEnd(fmt, from + 1);
    [Chars(fmt[from..j])] + Pieces(fmt, j, rejected)
  }

  /** The number of conversions. */
  function Convs(ps: seq<Piece>): nat {
    if ps == [] then 0 else (if ps[0].Conv? then 1 else 0) + Convs(ps[1..])
  }

  /** The number of literal characters. */
  function LiteralTotal(ps: seq<Piece>): nat {
    if ps == [] then 0 else (if ps[0].Chars? then |ps[0].text| else 0) + LiteralTotal(ps[1..])
  }

  /** What piece `k` prints: a literal itself, the n-th conversion what it makes of the n-th argument. */
  function PieceText(ps: seq<Piece>, k: nat, args: seq<Arg>): Option<string>
    requires k < |ps|
  {
    match ps[k]
    case Chars(t) => Some(t)
    case Conv(c, length) =>
      var n := Convs(ps[..k]);
      if n < |args| then Converted(c, length, args[n]) else None
  }

  /** The texts of the pieces from `k` on, one after the other. */
  function Joined(ps: seq<Piece>, args: seq<Arg>, k: nat): Option<string>
    requires k <= |ps|
    decreases |ps| - k
  {
    if k == |ps| then Some("")
    else
      var t := PieceText(ps, k, args);
      if t.None? then None else Prepend(t.value, Joined(ps, args, k + 1))
  }

  /** The same from the front, dropping each argument as it is used. */
  function Render(ps: seq<Piece>, args: seq<Arg>): Option<string>
    decreases |ps|
  {
    if ps == [] then Some("")
    else match ps[0]
      case Chars(t) => Prepend(t, Render(ps[1..], args))
      case Conv(c, length) =>
        if args == [] || Converted(c, length, args[0]).None? then None
        else Prepend(Converted(c, length, args[0]).value, Render(ps[1..], args[1..]))
  }

  lemma RenderChars(t: string, rest: seq<Piece>, args: seq<Arg>)
    ensures Render([Chars(t)] + rest, args) == Prepend(t, Render(rest, args))
  {
    assert ([Chars(t)] + rest)[1..] == rest;
  }

  lemma RenderConv(c: char, length: Length, rest: seq<Piece>, args: seq<Arg>)
    ensures Render([Conv(c, length)] + rest, args) ==
      if args == [] || Converted(c, length, args[0]).None? then None
      else Prepend(Converted(c, length, args[0]).value, Render(rest, args[1..]))
  {
    hide Converted;
    assert ([Conv(c, length)] + rest)[1..] == rest;
  }

  /** The loop takes a literal run from `from` on, rejecting a conversion or not. */
  ghost predicate IsRun(fmt: string, i: nat, rejected: bool, from: nat, reject: bool) {
    && i <= from < |fmt|
    && (|| (fmt[i] != '%' && from == i && !reject)
        || (fmt[i] == '%' && At(fmt, i + 1) == '%' && from == i + 1 && !reject)
        || (fmt[i] == '%' && At(fmt, i + 1) != '%' && rejected && from == i && !reject)
        || (fmt[i] == '%' && At(fmt, i + 1) != '%' && !rejected && from == i && reject
            && var (length, k) := Modifier(fmt, i + 1); !IsConversion(At(fmt, i + 1 + k), length)))
  }

  /** A conversion that is understood stands at `i`. */
  predicate IsConv(fmt: string, i: nat, rejected: bool) {
    && i < |fmt| && fmt[i] == '%' && At(fmt, i + 1) != '%' && !rejected
    && IsConversion(At(fmt, i + 1 + Modifier(fmt, i + 1).1), Modifier(fmt, i + 1).0)
  }

  lemma RunUnfolds(fmt: string, i: nat, args: seq<Arg>, rejected: bool, from: nat, reject: bool)
    requires IsRun(fmt, i, rejected, from, reject)
    ensures var next := RunEnd(fmt, from + 1);
            && Interp(fmt, i, args, rejected) == Prepend(fmt[from..next], Interp(fmt, next, args, rejected || reject))
            && Pieces(fmt, i, rejected) == [Chars(fmt[from..next])] + Pieces(fmt, next, rejected || reject)
  {
    hide Modifier, RunEnd, Converted, Prepend;
    assert Interp(fmt, i, args, rejected) == Literal(fmt, i, from, args, rejected || reject);
    assert Pieces(fmt, i, rejected) == Run(fmt, i, from, rejected || reject);
  }

  lemma ConvUnfolds(fmt: string, i: nat, args: seq<Arg>, rejected: bool)
    requires IsConv(fmt, i, rejected)
    ensures var (length, k) := Modifier(fmt, i + 1);
            var c := At(fmt, i + 1 + k);
            && i + 2 + k <= |fmt|
            && Interp(fmt, i, args, rejected) ==
               (if args == [] || Converted(c, length, args[0]).None? then None
                else Prepend(Converted(c, length, args[0]).value, Interp(fmt, i + 2 + k, args[1..], false)))
            && Pieces(fmt, i, rejected) == [Conv(c, length)] + Pieces(fmt, i + 2 + k, false)
  {
    hide Modifier, Converted, Prepend;
  }

  /** At every position but the end there is a run or a conversion. */
  lemma RunOrConv(fmt: string, i: nat, rejected: bool) returns (from: nat, reject: bool)
    requires i < |fmt|
    ensures IsConv(fmt, i, rejected) || IsRun(fmt, i, rejected, from, reject)
  {
    hide Modifier;
    from := if fmt[i] == '%' && At(fmt, i + 1) == '%' then i + 1 else i;
    reject := fmt[i] == '%' && At(fmt, i + 1) != '%' && !rejected;
  }

  /** The interpreter renders the pieces. */
  lemma {:induction false} InterpRenders(fmt: string, i: nat, args: seq<Arg>, rejected: bool)
    requires i <= |fmt|
    ensures Interp(fmt, i, args, rejected) == Render(Pieces(fmt, i, rejected), args)
    decreases |fmt| - i
  {
    if i == |fmt| {
      RenderNothing(args);
    } else {
      hide Interp, Pieces, Render, Converted, Modifier, RunEnd, IsRun, Prepend;
      var from, reject := RunOrConv(fmt, i, rejected);
      if IsConv(fmt, i, rejected) {
        var (length, k) := Modifier(fmt, i + 1);
        ConvUnfolds(fmt, i, args, rejected);
        if args != [] {
          InterpRenders(fmt, i + 2 + k, args[1..], false);
        }
        RenderConv(At(fmt, i + 1 + k), length, Pieces(fmt, i + 2 + k, false), args);
      } else {
        RunInside(fmt, i, rejected, from, reject);
        var j := RunEnd(fmt, from + 1);
        RunUnfolds(fmt, i, args, rejected, from, reject);
        InterpRenders(fmt, j, args, rejected || reject);
        RenderChars(fmt[from..j], Pieces(fmt, j, rejected || reject), args);
      }
    }
  }

  lemma RunInside(fmt: string, i: nat, rejected: bool, from: nat, reject: bool)
    requires IsRun(fmt, i, rejected, from, reject)
    ensures i <= from < |fmt|
  {
  }

  lemma RenderNothing(args: seq<Arg>)
    ensures Render([], args) == Some("")
  {
  }

  lemma {:induction false} ConvsNext(ps: seq<Piece>, k: nat)
    requires k < |ps|
    ensures Convs(ps[..k + 1]) == Convs(ps[..k]) + if ps[k].Conv? then 1 else 0
    decreases k
  {
    if k > 0 {
      ConvsNext(ps[1..], k - 1);
      assert ps[..k + 1][1..] == ps[1..][..k] && ps[..k][1..] == ps[1..][..k - 1];
    } else {
      assert ps[..1][1..] == [] && ps[..0] == [];
    }
  }

  lemma {:induction false} JoinedRenders(ps: seq<Piece>, args: seq<Arg>, k: nat)
    requires k <= |ps| && Convs(ps[..k]) <= |args|
    ensures Joined(ps, args, k) == Render(ps[k..], args[Convs(ps[..k])..])
    decreases |ps| - k
  {
    hide Converted;
    if k < |ps| {
      var n := Convs(ps[..k]);
      ConvsNext(ps, k);
      assert ps[k..][1..] == ps[k + 1..];
      if ps[k].Chars? {
        JoinedRenders(ps, args, k + 1);
      } else if n < |args| {
        JoinedRenders(ps, args, k + 1);
        assert args[n..][1..] == args[n + 1..];
      }
    }
  }

  /**
   The output is the concatenation of the literal pieces and of what the n-th conversion makes of
   the n-th argument; it is undefined exactly when a conversion finds no argument of its kind.
   */
  lemma InterpJoins(fmt: string, args: seq<Arg>)
    ensures Interp(fmt, 0, args, false) == Joined(Pieces(fmt, 0, false), args, 0)
  {
    hide Interp, Pieces, Render, Joined;
    var ps := Pieces(fmt, 0, false);
    InterpRenders(fmt, 0, args, false);
    JoinedRenders(ps, args, 0);
    assert ps[0..] == ps && args[0..] == args;
  }

  lemma {:induction false} RenderUses(ps: seq<Piece>, args: seq<Arg>)
    requires Render(ps, args).Some?
    ensures Convs(ps) <= |args| && Render(ps, args[..Convs(ps)]) == Render(ps, args)
    decreases |ps|
  {
    hide Converted;
    if ps != [] {
      var n := Convs(ps);
      if ps[0].Conv? {
        RenderUses(ps[1..], args[1..]);
        assert args[..n][1..] == args[1..][..n - 1];
      } else {
        RenderUses(ps[1..], args);
      }
    }
  }

  /** Arguments beyond the conversions of the format are ignored, and none may be missing. */
  lemma ArgumentsUsed(fmt: string, args: seq<Arg>)
    requires Interp(fmt, 0, args, false).Some?
    ensures var n := Convs(Pieces(fmt, 0, false));
            n <= |args| && Interp(fmt, 0, args[..n], false) == Interp(fmt, 0, args, false)
  {
    hide Interp, Pieces, Render;
    var ps := Pieces(fmt, 0, false);
    InterpRenders(fmt, 0, args, false);
    RenderUses(ps, args);
    InterpRenders(fmt, 0, args[..Convs(ps)], false);
  }

  // ---------------------------------------------------------------- printf

  /** Where the loop stands: what is still to be interpreted completes the output so far. */
  ghost predicate Stands(fmt: string, args: seq<Arg>, out: string, i: nat, rest: seq<Arg>, rejected: bool) {
    i <= |fmt| && Interp(fmt, 0, args, false) == Prepend(out, Interp(fmt, i, rest, rejected))
  }

  lemma PrependTwice(s: string, t: string, rest: Option<string>)
    ensures Prepend(s, Prepend(t, rest)) == Prepend(s + t, rest)
  {
    if rest.Some? {
      assert s + (t + rest.value) == (s + t) + rest.value;
    }
  }

  /** `print_c`: one character and the literal run behind it. */
  method PrintRun(fmt: string, from: nat) returns (text: string, next: nat)
    requires from < |fmt| && '\0' !in fmt
    ensures next == RunEnd(fmt, from + 1) && text == fmt[from..next]
  {
    var amount := 1;
    while At(fmt, from + amount) != '\0' && At(fmt, from + amount) != '%'
      invariant 1 <= amount && from + amount <= |fmt|
      invariant RunEnd(fmt, from + 1) == RunEnd(fmt, from + amount)
      decreases |fmt| - from - amount
    {
      amount := amount + 1;
    }
    next := from + amount;
    text := fmt[from..next];
  }

  /** A numeric conversion: fetch, sign, digits. */
  method ConvertNumber(c: char, length: Length, n: int) returns (text: string)
    requires IsNumeric(c) && Accepts(c, length)
    ensures text == NumberText(c, length, n)
  {
    hide U64, Signed64, U32, Signed32, DigitText, DigitsOf;
    var negative := false;
    var value;
    if IsSigned(c) {
      var signedValue := if length == LongLong || length == IntMax then Signed64(n) else Signed32(U32(n));
      negative := signedValue < 0;
      value := if negative then U64(-U64(signedValue)) else U64(signedValue);
    } else if length == LongLong || length == IntMax {
      value := U64(n);
    } else if length == PtrDiff {
      value := U64(Signed32(U32(n)));
    } else {
      value := U32(n);
    }
    var digits := if c == 'X' then UPPER else LOWER;
    var base := if c == 'x' || c == 'X' then 16 else if c == 'o' then 8 else 10;
    text := if negative then "-" else "";
    var output := new char[24];
    var outputLength := ConvertInteger(output, value, base, digits);
    assert output[..outputLength] == DigitText(value, base, digits);
    assert (negative, value) == Magnitude(c, length, n);
    text := text + output[..outputLength];
  }

  /** The conversion of one argument. */
  method Convert(c: char, length: Length, arg: Arg) returns (text: string)
    requires IsConversion(c, length) && Converted(c, length, arg).Some?
    ensures Converted(c, length, arg) == Some(text)
  {
    hide NumberText;
    if c == 'c' {
      text := [(U32(arg.n) % 256) as char];
    } else if c == 's' {
      text := arg.s;
    } else {
      text := ConvertNumber(c, length, arg.n);
    }
  }

  /** The literal characters from `i` on complete the count so far. */
  ghost predicate Counts(fmt: string, count: nat, i: nat, rejected: bool) {
    i <= |fmt| && LiteralTotal(Pieces(fmt, 0, false)) == count + LiteralTotal(Pieces(fmt, i, rejected))
  }

  /** `written += amount`, an int and a size_t. */
  function AddWritten(written: int, amount: nat): int {
    Signed32(U32(U32(written) + amount))
  }

  lemma AddWrittenCounts(count: nat, amount: nat)
    ensures AddWritten(Signed32(U32(count)), amount) == Signed32(U32(count + amount))
  {
    var m := count / MOD32;
    assert count == m * MOD32 + U32(count);
    assert U32(U32(count) + amount + m * MOD32) == U32(U32(count) + amount);
  }

  /** One look at the format: a conversion that is understood, or a literal run from `from` on. */
  method Decide(fmt: string, pos: nat, rejected: bool)
    returns (converts: bool, c: char, length: Length, at: nat, from: nat, reject: bool)
    requires pos < |fmt|
    ensures converts ==>
      IsConv(fmt, pos, rejected) && (length, at) == (Modifier(fmt, pos + 1).0, pos + 1 + Modifier(fmt, pos + 1).1)
      && c == At(fmt, at)
    ensures !converts ==> IsRun(fmt, pos, rejected, from, reject)
  {
    hide Modifier;
    converts, c, length, at, from, reject := false, fmt[pos], Default, pos, pos, false;
    if fmt[pos] != '%' {
      return;
    }
    var format := pos + 1;
    if At(fmt, format) == '%' {
      from := format;
      return;
    }
    if rejected {
      return;
    }
    var lengthLength;
    length, lengthLength := ScanLength(fmt, format);
    at := format + lengthLength;
    c := At(fmt, at);
    var anyLength := length == ShortShort || length == Short || length == Default || length == Long
                     || length == LongLong || length == IntMax || length == PtrDiff;
    var signed := (c == 'd' || c == 'i') && anyLength;
    var unsigned := (c == 'o' || c == 'u' || c == 'x' || c == 'X' || c == 'p') && (anyLength || length == SizeT);
    converts := signed || unsigned || c == 'c' || c == 's';
    reject := !converts;
  }

  /**
   `printf`, given arguments of the types its conversions ask for; `out` is what is printed. The
   result counts the literal characters only, as an int.
   */
  method Printf(fmt: string, args: seq<Arg>) returns (out: string, written: int)
    requires '\0' !in fmt && Interp(fmt, 0, args, false).Some?
    ensures Interp(fmt, 0, args, false) == Some(out)
    ensures written == Signed32(U32(LiteralTotal(Pieces(fmt, 0, false))))
  {
    hide Modifier, RunEnd, U32, Signed32, Interp, Pieces, LiteralTotal, Stands, Counts;
    var pos, rest, rejected := 0, args, false;
    out, written := "", 0;
    ghost var count: nat := 0;
    StandsStart(fmt, args);
    CountsStart(fmt);
    while At(fmt, pos) != '\0'
      invariant pos <= |fmt|
      invariant Stands(fmt, args, out, pos, rest, rejected)
      invariant Counts(fmt, count, pos, rejected) && written == Signed32(U32(count))
      decreases |fmt| - pos
    {
      hide IsConv, IsRun, Converted, AddWritten, Prepend, IsConversion;
      var converts, c, length, at, from, reject := Decide(fmt, pos, rejected);
      if converts {
        StandsArgument(fmt, args, out, pos, rest, rejected);
        var text := Convert(c, length, rest[0]);
        StandsConverted(fmt, args, out, pos, rest, rejected, text);
        CountsConverted(fmt, count, pos, rejected);
        out, rest, pos := out + text, rest[1..], at + 1;
      } else {
        RunInside(fmt, pos, rejected, from, reject);
        var text, next := PrintRun(fmt, from);
        StandsLiteral(fmt, args, out, pos, rest, rejected, from, reject);
        CountsLiteral(fmt, count, pos, rejected, from, reject);
        AddWrittenCounts(count, |text|);
        out, pos, rejected := out + text, next, rejected || reject;
        written, count := AddWritten(written, |text|), count + |text|;
      }
    }
    StandsEnd(fmt, args, out, pos, rest, rejected);
    CountsEnd(fmt, count, pos, rejected);
  }

  lemma CountsStart(fmt: string)
    ensures Counts(fmt, 0, 0, false) && Signed32(U32(0)) == 0
  {
  }

  lemma CountsEnd(fmt: string, count: nat, i: nat, rejected: bool)
    requires Counts(fmt, count, i, rejected) && i == |fmt|
    ensures LiteralTotal(Pieces(fmt, 0, false)) == count
  {
  }

  lemma CountsConverted(fmt: string, count: nat, i: nat, rejected: bool)
    requires Counts(fmt, count, i, rejected) && IsConv(fmt, i, rejected)
    ensures Counts(fmt, count, i + 2 + Modifier(fmt, i + 1).1, rejected)
  {
    hide Modifier, Pieces;
    ConvUnfolds(fmt, i, [], rejected);
    assert Pieces(fmt, i, rejected)[1..] == Pieces(fmt, i + 2 + Modifier(fmt, i + 1).1, false);
  }

  lemma CountsLiteral(fmt: string, count: nat, i: nat, rejected: bool, from: nat, reject: bool)
    requires Counts(fmt, count, i, rejected) && IsRun(fmt, i, rejected, from, reject)
    ensures var next := RunEnd(fmt, from + 1); Counts(fmt, count + (next - from), next, rejected || reject)
  {
    hide Modifier, RunEnd, Pieces;
    RunUnfolds(fmt, i, [], rejected, from, reject);
    assert Pieces(fmt, i, rejected)[1..] == Pieces(fmt, RunEnd(fmt, from + 1), rejected || reject);
  }

  lemma StandsStart(fmt: string, args: seq<Arg>)
    ensures Stands(fmt, args, "", 0, args, false)
  {
    var r := Interp(fmt, 0, args, false);
    if r.Some? {
      assert "" + r.value == r.value;
    }
  }

  lemma StandsEnd(fmt: string, args: seq<Arg>, out: string, i: nat, rest: seq<Arg>, rejected: bool)
    requires Stands(fmt, args, out, i, rest, rejected) && i == |fmt|
    ensures Interp(fmt, 0, args, false) == Some(out)
  {
    assert out + "" == out;
  }

  /** A conversion is only reached with an argument of its type. */
  lemma StandsArgument(fmt: string, args: seq<Arg>, out: string, i: nat, rest: seq<Arg>, rejected: bool)
    requires Stands(fmt, args, out, i, rest, rejected) && Interp(fmt, 0, args, false).Some? && IsConv(fmt, i, rejected)
    ensures rest != []
    ensures var (length, k) := Modifier(fmt, i + 1);
            var c := At(fmt, i + 1 + k);
            IsConversion(c, length) && Converted(c, length, rest[0]).Some? && i + 2 + k <= |fmt|
  {
    hide Modifier, Converted, Interp;
    ConvUnfolds(fmt, i, rest, rejected);
  }

  lemma StandsConverted(fmt: string, args: seq<Arg>, out: string, i: nat, rest: seq<Arg>, rejected: bool, text: string)
    requires Stands(fmt, args, out, i, rest, rejected) && IsConv(fmt, i, rejected) && rest != []
    requires var (length, k) := Modifier(fmt, i + 1); Converted(At(fmt, i + 1 + k), length, rest[0]) == Some(text)
    ensures Stands(fmt, args, out + text, i + 2 + Modifier(fmt, i + 1).1, rest[1..], rejected)
  {
    hide Modifier, Converted, Interp;
    ConvUnfolds(fmt, i, rest, rejected);
    PrependTwice(out, text, Interp(fmt, i + 2 + Modifier(fmt, i + 1).1, rest[1..], false));
  }

  lemma StandsLiteral(fmt: string, args: seq<Arg>, out: string, i: nat, rest: seq<Arg>, rejected: bool,
                      from: nat, reject: bool)
    requires Stands(fmt, args, out, i, rest, rejected) && IsRun(fmt, i, rejected, from, reject)
    ensures var next := RunEnd(fmt, from + 1);
            Stands(fmt, args, out + fmt[from..next], next, rest, rejected || reject)
  {
    hide Modifier, RunEnd, Interp;
    var next := RunEnd(fmt, from + 1);
    RunUnfolds(fmt, i, rest, rejected, from, reject);
    PrependTwice(out, fmt[from..next], Interp(fmt, next, rest, rejected || reject));
  }

  // ---------------------------------------------------------------- what formats mean

  /** Percent signs in pairs stand for one; a single one stands for itself. */
  function Unescape(s: string): string {
    if s == "" then ""
    else if s[0] == '%' && |s| > 1 && s[1] == '%' then "%" + Unescape(s[2..])
    else [s[0]] + Unescape(s[1..])
  }

  function Escape(s: string): string {
    if s == "" then ""
    else (if s[0] == '%' then "%%" else [s[0]]) + Escape(s[1..])
  }

  lemma Reassociate(a: string, b: string, c: string)
    ensures a + (b + c) == (a + b) + c
  {
  }

  lemma UnescapeOne(fmt: string, i: nat)
    requires i < |fmt| && !(fmt[i] == '%' && At(fmt, i + 1) == '%')
    ensures Unescape(fmt[i..]) == [fmt[i]] + Unescape(fmt[i + 1..])
  {
    assert fmt[i..][1..] == fmt[i + 1..];
  }

  lemma UnescapeTwo(fmt: string, i: nat)
    requires i < |fmt| && fmt[i] == '%' && At(fmt, i + 1) == '%'
    ensures Unescape(fmt[i..]) == "%" + Unescape(fmt[i + 2..])
  {
    assert fmt[i..][2..] == fmt[i + 2..];
  }

  /** A run without percent signs passes through. */
  lemma {:induction false} UnescapeRun(fmt: string, i: nat, j: nat)
    requires i <= j <= |fmt| && forall k :: i <= k < j ==> fmt[k] != '%'
    ensures Unescape(fmt[i..]) == fmt[i..j] + Unescape(fmt[j..])
    decreases j - i
  {
    hide Unescape;
    if i < j {
      UnescapeOne(fmt, i);
      UnescapeRun(fmt, i + 1, j);
      Reassociate([fmt[i]], fmt[i + 1..j], Unescape(fmt[j..]));
      assert [fmt[i]] + fmt[i + 1..j] == fmt[i..j];
    } else {
      assert fmt[i..j] == "" && "" + Unescape(fmt[j..]) == Unescape(fmt[j..]);
    }
  }

  lemma UnescapeLiteral(fmt: string, from: nat)
    requires from < |fmt|
    ensures var j := RunEnd(fmt, from + 1); [fmt[from]] + Unescape(fmt[from + 1..]) == fmt[from..j] + Unescape(fmt[j..])
  {
    hide Unescape, RunEnd;
    var j := RunEnd(fmt, from + 1);
    UnescapeRun(fmt, from + 1, j);
    Reassociate([fmt[from]], fmt[from + 1..j], Unescape(fmt[j..]));
    assert [fmt[from]] + fmt[from + 1..j] == fmt[from..j];
  }

  /** After the first rejection the rest is copied, except that paired percent signs become one. */
  lemma {:induction false} AfterRejection(fmt: string, i: nat, args: seq<Arg>)
    requires i <= |fmt|
    ensures Interp(fmt, i, args, true) == Some(Unescape(fmt[i..]))
    decreases |fmt| - i
  {
    hide Unescape, Modifier;
    if i == |fmt| {
      UnescapeNothing(fmt);
    } else {
      var from := if fmt[i] == '%' && At(fmt, i + 1) == '%' then i + 1 else i;
      var j := RunEnd(fmt, from + 1);
      AfterRejection(fmt, j, args);
      UnescapeLiteral(fmt, from);
      assert Interp(fmt, i, args, true) == Literal(fmt, i, from, args, true);
      assert Literal(fmt, i, from, args, true) == Prepend(fmt[from..j], Some(Unescape(fmt[j..])));
      if from == i + 1 {
        UnescapeTwo(fmt, i);
      } else {
        UnescapeOne(fmt, i);
      }
    }
  }

  lemma UnescapeNothing(fmt: string)
    ensures Unescape(fmt[|fmt|..]) == ""
  {
  }

  /** The first conversion that is not understood ends interpretation: nothing of the rest is converted. */
  lemma RejectionIsFinal(fmt: string, i: nat, args: seq<Arg>)
    requires i < |fmt| && fmt[i] == '%' && At(fmt, i + 1) != '%'
    requires var (length, k) := Modifier(fmt, i + 1); !IsConversion(At(fmt, i + 1 + k), length)
    ensures Interp(fmt, i, args, false) == Some(Unescape(fmt[i..]))
  {
    hide Modifier;
    AfterRejection(fmt, i, args);
    assert Interp(fmt, i, args, false) == Literal(fmt, i, i, args, true) == Interp(fmt, i, args, true);
  }

  /** Percent signs occur in pairs only. */
  predicate Paired(s: string) {
    s == "" || (s[0] != '%' && Paired(s[1..])) || (|s| > 1 && s[0] == s[1] == '%' && Paired(s[2..]))
  }

  lemma PairedStep(fmt: string, i: nat)
    requires i < |fmt| && Paired(fmt[i..])
    ensures if fmt[i] == '%' then At(fmt, i + 1) == '%' && i + 2 <= |fmt| && Paired(fmt[i + 2..])
            else Paired(fmt[i + 1..])
  {
    assert fmt[i..][1..] == fmt[i + 1..];
    if |fmt| > i + 1 {
      assert fmt[i..][2..] == fmt[i + 2..];
    }
  }

  lemma {:induction false} PairedRun(fmt: string, i: nat, j: nat)
    requires i <= j <= |fmt| && Paired(fmt[i..]) && forall k :: i <= k < j ==> fmt[k] != '%'
    ensures Paired(fmt[j..])
    decreases j - i
  {
    hide Paired;
    if i < j {
      PairedStep(fmt, i);
      PairedRun(fmt, i + 1, j);
    }
  }

  /** A format without conversions prints itself, and never rejects. */
  lemma {:induction false} PairedPrints(fmt: string, i: nat, args: seq<Arg>, rejected: bool)
    requires i <= |fmt| && Paired(fmt[i..])
    ensures Interp(fmt, i, args, rejected) == Some(Unescape(fmt[i..]))
    decreases |fmt| - i
  {
    hide Unescape, Paired, Modifier;
    if i == |fmt| {
      UnescapeNothing(fmt);
    } else {
      PairedStep(fmt, i);
      var from := if fmt[i] == '%' then i + 1 else i;
      var j := RunEnd(fmt, from + 1);
      PairedRun(fmt, from + 1, j);
      PairedPrints(fmt, j, args, rejected);
      UnescapeLiteral(fmt, from);
      assert Interp(fmt, i, args, rejected) == Literal(fmt, i, from, args, rejected);
      assert Literal(fmt, i, from, args, rejected) == Prepend(fmt[from..j], Some(Unescape(fmt[j..])));
      if from == i + 1 {
        UnescapeTwo(fmt, i);
      } else {
        UnescapeOne(fmt, i);
      }
    }
  }

  lemma {:induction false} EscapePaired(s: string)
    ensures Paired(Escape(s)) && Unescape(Escape(s)) == s
  {
    if s != "" {
      EscapePaired(s[1..]);
      var t := Escape(s[1..]);
      assert ([s[0]] + t)[1..] == t && ("%%" + t)[2..] == t;
      assert s == [s[0]] + s[1..];
    }
  }

  /** Printing an escaped text prints the text. */
  lemma EscapedPrints(s: string, args: seq<Arg>)
    ensures Interp(Escape(s), 0, args, false) == Some(s)
  {
    EscapePaired(s);
    assert Escape(s)[0..] == Escape(s);
    PairedPrints(Escape(s), 0, args, false);
  }
}
