/** `strtok_r` and its helpers, on a mutable buffer. Pointers into the buffer are indices. */
module Tokenizer {
  const NUL: char := '\0'

  /** Reading a C string: the terminator follows the last character. */
  function CharAt(s: string, i: nat): char
    requires i <= |s|
  {
    if i < |s| then s[i] else NUL
  }

  /** `n` is where the string that starts at `p` ends. */
  ghost predicate EndsAt(s: seq<char>, p: nat, n: nat) {
    p <= n < |s| && s[n] == NUL && forall k :: p <= k < n ==> s[k] != NUL
  }

  // ---------------------------------------------------------------- specification

  /** The first position from `i` on that is no delimiter, or the end. */
  function Skip(s: seq<char>, i: nat, n: nat, delim: string): (b: nat)
    requires i <= n < |s|
    ensures i <= b <= n && (b < n ==> s[b] !in delim) && forall k :: i <= k < b ==> s[k] in delim
    decreases n - i
  {
    if i == n || s[i] !in delim then i else Skip(s, i + 1, n, delim)
  }

  /** The first delimiter from `i` on, or the end. */
  function Stop(s: seq<char>, i: nat, n: nat, delim: string): (e: nat)
    requires i <= n < |s|
    ensures i <= e <= n && (e < n ==> s[e] in delim) && forall k :: i <= k < e ==> s[k] !in delim
    decreases n - i
  {
    if i == n || s[i] in delim then i else Stop(s, i + 1, n, delim)
  }

  /** The segments a run of `strtok_r` cuts out of `s[i..n]`, as start and end. */
  function Segments(s: seq<char>, i: nat, n: nat, delim: string): seq<(nat, nat)>
    requires i <= n < |s|
    decreases n - i
  {
    var b := Skip(s, i, n, delim);
    if b == n then []
    else
      var e := Stop(s, b, n, delim);
      [(b, e)] + if e == n then [] else Segments(s, e + 1, n, delim)
  }

  /** A stretch without delimiters that cannot be extended on either side. */
  ghost predicate Maximal(s: seq<char>, i: nat, n: nat, delim: string, b: nat, e: nat)
    requires i <= n < |s|
  {
    && i <= b < e <= n
    && (forall k :: b <= k < e ==> s[k] !in delim)
    && (b == i || s[b - 1] in delim)
    && (e == n || s[e] in delim)
  }

  /** A maximal stretch is the first one found, or it lies behind the delimiter that ends that one. */
  lemma FirstOrLater(s: seq<char>, i: nat, n: nat, delim: string, b: nat, e: nat)
    requires i <= n < |s| && Maximal(s, i, n, delim, b, e)
    ensures var b0 := Skip(s, i, n, delim);
            && b0 < n
            && var e0 := Stop(s, b0, n, delim);
               (b, e) == (b0, e0) || (e0 < n && Maximal(s, e0 + 1, n, delim, b, e))
  {
    var b0 := Skip(s, i, n, delim);
    assert s[b] !in delim && b0 <= b;
    var e0 := Stop(s, b0, n, delim);
    if b < e0 {
      assert b == b0;
      assert e < n ==> s[e] in delim;
    } else {
      assert e0 < n && s[e0] in delim && b != e0;
    }
  }

  lemma FoundIsMaximal(s: seq<char>, i: nat, n: nat, delim: string)
    requires i <= n < |s| && Skip(s, i, n, delim) < n
    ensures var b0 := Skip(s, i, n, delim); Maximal(s, i, n, delim, b0, Stop(s, b0, n, delim))
  {
  }

  lemma LaterIsMaximal(s: seq<char>, i: nat, m: nat, n: nat, delim: string, b: nat, e: nat)
    requires i <= m < n < |s| && s[m] in delim && Maximal(s, m + 1, n, delim, b, e)
    ensures Maximal(s, i, n, delim, b, e)
  {
  }

  lemma InSegments(s: seq<char>, i: nat, n: nat, delim: string, x: (nat, nat))
    requires i <= n < |s|
    ensures x in Segments(s, i, n, delim) <==>
      var b0 := Skip(s, i, n, delim);
      && b0 < n
      && var e0 := Stop(s, b0, n, delim);
         x == (b0, e0) || (e0 < n && x in Segments(s, e0 + 1, n, delim))
  {
  }

  /** The segments are exactly the maximal delimiter-free stretches. */
  lemma {:induction false} SegmentsAreMaximal(s: seq<char>, i: nat, n: nat, delim: string, b: nat, e: nat)
    requires i <= n < |s|
    ensures (b, e) in Segments(s, i, n, delim) <==> Maximal(s, i, n, delim, b, e)
    decreases n - i
  {
    hide Maximal, Segments, Skip, Stop;
    InSegments(s, i, n, delim, (b, e));
    var b0 := Skip(s, i, n, delim);
    if b0 < n {
      var e0 := Stop(s, b0, n, delim);
      FoundIsMaximal(s, i, n, delim);
      if e0 < n {
        SegmentsAreMaximal(s, e0 + 1, n, delim, b, e);
        if Maximal(s, e0 + 1, n, delim, b, e) {
          LaterIsMaximal(s, i, e0, n, delim, b, e);
        }
      }
    }
    if Maximal(s, i, n, delim, b, e) {
      FirstOrLater(s, i, n, delim, b, e);
    }
  }

  /** The segments come in order, with a delimiter between any two. */
  lemma {:induction false} SegmentsInOrder(s: seq<char>, i: nat, n: nat, delim: string, j: nat, k: nat)
    requires i <= n < |s| && j < k < |Segments(s, i, n, delim)|
    ensures Segments(s, i, n, delim)[j].1 < Segments(s, i, n, delim)[k].0
    decreases n - i
  {
    hide Segments, Skip, Stop;
    SegmentsHead(s, i, n, delim, k);
    var b := Skip(s, i, n, delim);
    var e := Stop(s, b, n, delim);
    var rest := Segments(s, e + 1, n, delim);
    if j > 0 {
      SegmentsInOrder(s, e + 1, n, delim, j - 1, k - 1);
    } else {
      var (x, y) := rest[k - 1];
      assert (x, y) in rest;
      SegmentsAreMaximal(s, e + 1, n, delim, x, y);
    }
  }

  lemma SegmentsHead(s: seq<char>, i: nat, n: nat, delim: string, k: nat)
    requires i <= n < |s| && 0 < k < |Segments(s, i, n, delim)|
    ensures var b := Skip(s, i, n, delim);
            && b < n
            && var e := Stop(s, b, n, delim);
               e < n && Segments(s, i, n, delim) == [(b, e)] + Segments(s, e + 1, n, delim)
  {
  }

  // ---------------------------------------------------------------- library functions

  /** `strspn`. */
  method Strspn(a: array<char>, str1: nat, str2: string, ghost n: nat) returns (size: nat)
    requires EndsAt(a[..], str1, n) && NUL !in str2
    ensures str1 + size == Skip(a[..], str1, n, str2)
  {
    var ptr := str1;
    size := 0;
    while a[ptr] != NUL
      invariant str1 <= ptr <= n && size == ptr - str1
      invariant Skip(a[..], str1, n, str2) == Skip(a[..], ptr, n, str2)
      decreases n - ptr
    {
      var temp := 0;
      while CharAt(str2, temp) != NUL
        invariant 0 <= temp <= |str2| && forall k :: 0 <= k < temp ==> str2[k] != a[ptr]
        decreases |str2| - temp
      {
        if a[ptr] == CharAt(str2, temp) {
          break;
        }
        temp := temp + 1;
      }
      if CharAt(str2, temp) == NUL {
        return size;
      } else {
        size := size + 1;
      }
      ptr := ptr + 1;
    }
  }

  /** `strpbrk`; -1 stands for null. */
  method Strpbrk(a: array<char>, str1: nat, str2: string, ghost n: nat) returns (r: int)
    requires EndsAt(a[..], str1, n) && NUL !in str2
    ensures r == if Stop(a[..], str1, n, str2) == n then -1 else Stop(a[..], str1, n, str2)
  {
    var p := str1;
    while a[p] != NUL
      invariant str1 <= p <= n
      invariant Stop(a[..], str1, n, str2) == Stop(a[..], p, n, str2)
      decreases n - p
    {
      var acc := 0;
      while CharAt(str2, acc) != NUL
        invariant 0 <= acc <= |str2| && forall k :: 0 <= k < acc ==> str2[k] != a[p]
        decreases |str2| - acc
      {
        acc := acc + 1;
        if CharAt(str2, acc - 1) == a[p] {
          return p;
        }
      }
      p := p + 1;
    }
    r := -1;
  }

  /** `lfind`, where the character occurs. */
  method Lfind(a: array<char>, str1: nat, str2: char) returns (r: nat)
    requires exists k :: str1 <= k < a.Length && a[k] == str2
    ensures str1 <= r < a.Length && a[r] == str2 && forall k :: str1 <= k < r ==> a[k] != str2
  {
    ghost var w :| str1 <= w < a.Length && a[w] == str2;
    var i := 0;
    while a[str1 + i] != str2
      invariant 0 <= i && str1 + i <= w && forall k :: str1 <= k < str1 + i ==> a[k] != str2
      decreases w - str1 - i
    {
      i := i + 1;
    }
    r := str1 + i;
  }

  // ---------------------------------------------------------------- strtok_r

  /** What one call does to the buffer: the token, the new buffer and the new save pointer. */
  function Token(s: seq<char>, p: nat, n: nat, delim: string): (r: (int, seq<char>, nat))
    requires p <= n < |s|
    ensures r.0 == -1 || p <= r.0 < r.2 <= n
  {
    var b := Skip(s, p, n, delim);
    if b == n then (-1, s, n)
    else
      var e := Stop(s, b, n, delim);
      if e == n then (b, s, n) else (b, s[e := NUL], e + 1)
  }

  /** `strtok_r`; -1 stands for null, both as argument and as result. */
  method StrtokR(a: array<char>, str: int, delim: string, saveptr: nat, ghost n: nat)
    returns (token: int, newSave: nat)
    requires str >= -1 && EndsAt(a[..], if str == -1 then saveptr else str, n) && NUL !in delim
    modifies a
    ensures (token, a[..], newSave) == Token(old(a[..]), if str == -1 then saveptr else str, n, delim)
  {
    var p := if str == -1 then saveptr else str;
    var span := Strspn(a, p, delim, n);
    p := p + span;
    if a[p] == NUL {
      return -1, p;
    }
    token := p;
    var q := Strpbrk(a, token, delim, n);
    if q == -1 {
      newSave := Lfind(a, token, NUL);
    } else {
      a[q] := NUL;
      newSave := q + 1;
    }
  }

  /** After a null result every further call with the same delimiters returns null and changes nothing. */
  lemma ExhaustedStaysExhausted(s: seq<char>, p: nat, n: nat, delim: string)
    requires EndsAt(s, p, n) && Token(s, p, n, delim).0 == -1
    ensures var (token, s', save) := Token(s, p, n, delim);
            EndsAt(s', save, n) && Token(s', save, n, delim) == (-1, s, n)
  {
  }

  // ---------------------------------------------------------------- whole runs

  ghost predicate EndOfSome(segments: seq<(nat, nat)>, k: int) {
    exists j :: 0 <= j < |segments| && segments[j].1 == k
  }

  /** `r` is `s` with a terminator over the delimiter that ends each segment, and no other change. */
  ghost predicate Overwritten(s: seq<char>, r: seq<char>, segments: seq<(nat, nat)>, n: nat) {
    |r| == |s| && forall k :: 0 <= k < |s| ==> r[k] == if k < n && EndOfSome(segments, k) then NUL else s[k]
  }

  /** Only the text from `i` on matters to a call. */
  lemma {:induction false} SameFrom(s: seq<char>, t: seq<char>, i: nat, n: nat, delim: string)
    requires i <= n < |s| == |t| && forall k :: i <= k <= n ==> s[k] == t[k]
    ensures Skip(s, i, n, delim) == Skip(t, i, n, delim)
    ensures Stop(s, i, n, delim) == Stop(t, i, n, delim)
    decreases n - i
  {
    if i < n {
      SameFrom(s, t, i + 1, n, delim);
    }
  }

  lemma OverwriteOne(s: seq<char>, r: seq<char>, done: seq<(nat, nat)>, b: nat, e: nat, n: nat)
    requires Overwritten(s, r, done, n) && e <= n < |s|
    ensures Overwritten(s, if e == n then r else r[e := NUL], done + [(b, e)], n)
  {
    var all := done + [(b, e)];
    forall k
      ensures EndOfSome(all, k) <==> EndOfSome(done, k) || k == e
    {
      if EndOfSome(done, k) {
        var j :| 0 <= j < |done| && done[j].1 == k;
        assert all[j].1 == k;
      }
      if k == e {
        assert all[|done|].1 == k;
      }
    }
  }

  /** The segments that start at `p`, given that the call found one. */
  lemma SegmentsStep(s: seq<char>, p: nat, n: nat, delim: string)
    requires p <= n < |s| && Skip(s, p, n, delim) < n
    ensures var b := Skip(s, p, n, delim);
            var e := Stop(s, b, n, delim);
            Segments(s, p, n, delim) == [(b, e)] + Segments(s, if e == n then n else e + 1, n, delim)
  {
  }

  /** The buffer `r` and the tokens so far, part-way through the text `s`; `save` is where to go on. */
  ghost predicate Progress(s: seq<char>, r: seq<char>, save: nat, n: nat, delim: string,
                           done: seq<(nat, nat)>, tokens: seq<int>) {
    && save <= n < |s| == |r| && EndsAt(r, save, n)
    && (forall k :: save <= k < |s| ==> r[k] == s[k])
    && Segments(s, 0, n, delim) == done + Segments(s, save, n, delim)
    && |tokens| == |done| && (forall k :: 0 <= k < |tokens| ==> tokens[k] == done[k].0)
    && Overwritten(s, r, done, n)
  }

  lemma ProgressStart(s: seq<char>, n: nat, delim: string)
    requires EndsAt(s, 0, n)
    ensures Progress(s, s, 0, n, delim, [], [])
  {
    assert [] + Segments(s, 0, n, delim) == Segments(s, 0, n, delim);
  }

  /** A call part-way through finds what it would have found in the original text. */
  lemma TokenIs(s: seq<char>, r: seq<char>, save: nat, n: nat, delim: string)
    requires save <= n < |s| == |r| && forall k :: save <= k < |s| ==> r[k] == s[k]
    ensures var b := Skip(s, save, n, delim);
            var e := Stop(s, b, n, delim);
            var token: int, kept: bool := if b == n then -1 else b, b == n || e == n;
            Token(r, save, n, delim) == (token, if kept then r else r[e := NUL], if kept then n else e + 1)
  {
    SameFrom(s, r, save, n, delim);
    SameFrom(s, r, Skip(s, save, n, delim), n, delim);
  }

  lemma ProgressStep(s: seq<char>, r: seq<char>, save: nat, n: nat, delim: string,
                     done: seq<(nat, nat)>, tokens: seq<int>)
    requires Progress(s, r, save, n, delim, done, tokens) && Token(r, save, n, delim).0 != -1
    ensures var b := Token(r, save, n, delim).0;
            && 0 <= b <= n && save < Token(r, save, n, delim).2
            && Progress(s, Token(r, save, n, delim).1, Token(r, save, n, delim).2, n, delim,
                        done + [(b, Stop(s, b, n, delim))], tokens + [b])
  {
    hide Segments, Skip, Stop, Overwritten, Token;
    TokenIs(s, r, save, n, delim);
    var b: nat := Skip(s, save, n, delim);
    var e: nat := Stop(s, b, n, delim);
    OverwriteOne(s, r, done, b, e, n);
    SegmentsStep(s, save, n, delim);
    var rest := Segments(s, if e == n then n else e + 1, n, delim);
    assert done + ([(b, e)] + rest) == (done + [(b, e)]) + rest;
  }

  lemma ProgressEnd(s: seq<char>, r: seq<char>, save: nat, n: nat, delim: string,
                    done: seq<(nat, nat)>, tokens: seq<int>)
    requires Progress(s, r, save, n, delim, done, tokens) && Token(r, save, n, delim).0 == -1
    ensures Token(r, save, n, delim).1 == r && done == Segments(s, 0, n, delim)
  {
    SameFrom(s, r, save, n, delim);
    NoSegments(s, save, n, delim);
  }

  /** Calling `strtok_r` on the text and then on null until it returns null. */
  method Tokenize(a: array<char>, delim: string, ghost n: nat) returns (tokens: seq<int>)
    requires EndsAt(a[..], 0, n) && NUL !in delim
    modifies a
    ensures var segments := Segments(old(a[..]), 0, n, delim);
            && |tokens| == |segments|
            && (forall k :: 0 <= k < |tokens| ==> tokens[k] == segments[k].0)
            && Overwritten(old(a[..]), a[..], segments, n)
  {
    ghost var s := a[..];
    ghost var done: seq<(nat, nat)> := [];
    ProgressStart(s, n, delim);
    tokens := [];
    var str, save, token := 0, 0, 0;
    while token != -1
      invariant (str == 0 && save == 0) || str == -1
      invariant token != -1 ==> Progress(s, a[..], save, n, delim, done, tokens)
      invariant token == -1 ==> |tokens| == |done| && (forall k :: 0 <= k < |tokens| ==> tokens[k] == done[k].0)
                                && Overwritten(s, a[..], done, n) && done == Segments(s, 0, n, delim)
      decreases token != -1, n - save
    {
      ghost var r, from := a[..], save;
      token, save := StrtokR(a, str, delim, save, n);
      str := -1;
      hide Segments, Skip, Stop, Overwritten, Token;
      if token == -1 {
        ProgressEnd(s, r, from, n, delim, done, tokens);
      } else {
        ProgressStep(s, r, from, n, delim, done, tokens);
        tokens, done := tokens + [token], done + [(token, Stop(s, token, n, delim))];
      }
    }
  }

  lemma NoSegments(s: seq<char>, p: nat, n: nat, delim: string)
    requires p <= n < |s| && Skip(s, p, n, delim) == n
    ensures Segments(s, p, n, delim) == []
  {
  }

  /** In the final buffer each token reads, as a C string, as its segment of the original text. */
  lemma TokensRead(s: seq<char>, r: seq<char>, n: nat, delim: string, k: nat)
    requires EndsAt(s, 0, n) && NUL !in delim
    requires var segments := Segments(s, 0, n, delim); k < |segments| && Overwritten(s, r, segments, n)
    ensures var (b, e) := Segments(s, 0, n, delim)[k]; EndsAt(r, b, e) && b < e && r[b..e] == s[b..e]
    ensures forall i :: 0 <= i < |s| && r[i] != s[i] ==> r[i] == NUL && s[i] in delim
  {
    var segments := Segments(s, 0, n, delim);
    hide Segments;
    var (b, e) := segments[k];
    assert (b, e) in segments;
    SegmentsAreMaximal(s, 0, n, delim, b, e);
    forall i | b <= i < e
      ensures r[i] == s[i]
    {
      if EndOfSome(segments, i) {
        var j :| 0 <= j < |segments| && segments[j].1 == i;
        SegmentEnds(s, n, delim, j);
      }
    }
    assert EndOfSome(segments, e);
    forall i | 0 <= i < |s| && r[i] != s[i]
      ensures r[i] == NUL && s[i] in delim
    {
      var j :| 0 <= j < |segments| && segments[j].1 == i;
      SegmentEnds(s, n, delim, j);
    }
  }

  lemma SegmentEnds(s: seq<char>, n: nat, delim: string, j: nat)
    requires n < |s| && j < |Segments(s, 0, n, delim)|
    ensures var e := Segments(s, 0, n, delim)[j].1; e == n || (e < n && s[e] in delim)
  {
    var (b, e) := Segments(s, 0, n, delim)[j];
    assert (b, e) in Segments(s, 0, n, delim);
    SegmentsAreMaximal(s, 0, n, delim, b, e);
  }
}
