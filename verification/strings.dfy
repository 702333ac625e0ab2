/**
 * The string operations the loader relies on, with Python's meaning:
 * substring containment (`sub in s`), `str.split`, `str.upper` (on ASCII),
 * single-character `str.replace` and `int()` on a decimal literal.
 */
module Strings {
  import opened Wrappers

  /** `sub` occurs in `s` starting at index `i`. */
  predicate OccursAt(s: string, sub: string, i: nat)
  {
    i + |sub| <= |s| && s[i..i + |sub|] == sub
  }

  /** Python's `sub in s` for two strings. */
  predicate Contains(s: string, sub: string)
  {
    exists i :: 0 <= i <= |s| - |sub| && OccursAt(s, sub, i)
  }

  /** The leftmost occurrence of `sep` at or after `from`, if any. */
  function Find(s: string, sep: string, from: nat): (r: Option<nat>)
    requires |sep| > 0 && from <= |s|
    ensures r.Some? ==> from <= r.value && OccursAt(s, sep, r.value)
    ensures r.Some? ==> forall j: nat :: from <= j < r.value ==> !OccursAt(s, sep, j)
    ensures r.None? ==> forall j: nat :: from <= j ==> !OccursAt(s, sep, j)
    decreases |s| - from
  {
    if from + |sep| > |s| then None
    else if OccursAt(s, sep, from) then Some(from)
    else Find(s, sep, from + 1)
  }

  /** The pieces of `s[from..]` between the non-overlapping, leftmost-first occurrences of `sep`. */
  function SplitFrom(s: string, sep: string, from: nat): (parts: seq<string>)
    requires |sep| > 0 && from <= |s|
    ensures |parts| > 0
    decreases |s| - from
  {
    match Find(s, sep, from)
    case None => [s[from..]]
    case Some(i) => [s[from..i]] + SplitFrom(s, sep, i + |sep|)
  }

  /** Python's `s.split(sep)` for a non-empty separator. */
  function Split(s: string, sep: string): (parts: seq<string>)
    requires |sep| > 0
  {
    SplitFrom(s, sep, 0)
  }

  /** Python's `sep.join(parts)`. */
  function Join(parts: seq<string>, sep: string): string
  {
    if |parts| == 0 then []
    else if |parts| == 1 then parts[0]
    else parts[0] + sep + Join(parts[1..], sep)
  }

  /** An occurrence inside a slice is an occurrence in the whole string. */
  lemma OccursInSlice(s: string, sub: string, a: nat, b: nat, k: nat)
    requires a <= b <= |s|
    requires OccursAt(s[a..b], sub, k)
    ensures OccursAt(s, sub, a + k)
  {
    forall j | 0 <= j < |sub|
      ensures s[a + k + j] == sub[j]
    {
      assert s[a..b][k..k + |sub|][j] == sub[j];
    }
    assert s[a + k..a + k + |sub|] == sub;
  }

  lemma {:induction false} SplitFromJoin(s: string, sep: string, from: nat)
    requires |sep| > 0 && from <= |s|
    ensures Join(SplitFrom(s, sep, from), sep) == s[from..]
    decreases |s| - from
  {
    var f := Find(s, sep, from);
    if f.None? {
      SplitFromLast(s, sep, from);
    } else {
      SplitFromNext(s, sep, from, f.value);
      SplitFromJoin(s, sep, f.value + |sep|);
      SplitFromJoinStep(s, sep, from, f.value);
    }
  }

  lemma SplitFromJoinStep(s: string, sep: string, from: nat, i: nat)
    requires |sep| > 0 && from <= |s| && Find(s, sep, from) == Some(i)
    requires i + |sep| <= |s| && Join(SplitFrom(s, sep, i + |sep|), sep) == s[i + |sep|..]
    ensures Join(SplitFrom(s, sep, from), sep) == s[from..]
  {
    var parts := SplitFrom(s, sep, from);
    var rest := SplitFrom(s, sep, i + |sep|);
    SplitFromNext(s, sep, from, i);
    JoinCons(parts, s[from..i], rest, sep, s[i + |sep|..]);
    SliceAround(s, sep, from, i);
  }

  /** Joining a head onto a non-empty tail puts one separator between them. */
  lemma JoinCons(parts: seq<string>, head: string, rest: seq<string>, sep: string, tail: string)
    requires parts == [head] + rest && |rest| > 0 && Join(rest, sep) == tail
    ensures Join(parts, sep) == head + sep + tail
  {
    assert parts[1..] == rest;
  }

  /** A suffix of `s` splits around an occurrence of `sub` inside it. */
  lemma SliceAround(s: string, sub: string, from: nat, i: nat)
    requires from <= i && OccursAt(s, sub, i)
    ensures s[from..] == s[from..i] + sub + s[i + |sub|..]
  {
    assert s[from..] == s[from..i] + s[i..i + |sub|] + s[i + |sub|..];
  }

  /** Splitting then joining with the same separator gives the string back. */
  lemma SplitJoin(s: string, sep: string)
    requires |sep| > 0
    ensures Join(Split(s, sep), sep) == s
  {
    SplitFromJoin(s, sep, 0);
  }

  lemma {:induction false} SplitFromPartsFree(s: string, sep: string, from: nat)
    requires |sep| > 0 && from <= |s|
    ensures forall p :: p in SplitFrom(s, sep, from) ==> !Contains(p, sep)
    decreases |s| - from
  {
    match Find(s, sep, from)
    case None =>
      forall k | 0 <= k <= |s[from..]| - |sep| && OccursAt(s[from..], sep, k)
        ensures false
      {
        assert s[from..] == s[from..|s|];
        OccursInSlice(s, sep, from, |s|, k);
      }
    case Some(i) =>
      SplitFromPartsFree(s, sep, i + |sep|);
      forall k | 0 <= k <= |s[from..i]| - |sep| && OccursAt(s[from..i], sep, k)
        ensures false
      {
        OccursInSlice(s, sep, from, i, k);
      }
  }

  /** No piece produced by `Split` contains the separator. */
  lemma SplitPartsFree(s: string, sep: string)
    requires |sep| > 0
    ensures forall p :: p in Split(s, sep) ==> !Contains(p, sep)
  {
    SplitFromPartsFree(s, sep, 0);
  }

  /** `s.split(sep)` has a single piece exactly when `sep` does not occur in `s`. */
  lemma SplitSingle(s: string, sep: string)
    requires |sep| > 0
    ensures |Split(s, sep)| == 1 <==> !Contains(s, sep)
    ensures |Split(s, sep)| == 1 ==> Split(s, sep) == [s]
  {
    match Find(s, sep, 0)
    case None =>
    case Some(i) =>
      assert |SplitFrom(s, sep, i + |sep|)| > 0;
  }

  /** Only the character `c` itself occurs as the one-character string `[c]`. */
  lemma OccursChar(s: string, c: char, j: nat)
    requires j < |s|
    ensures OccursAt(s, [c], j) <==> s[j] == c
  {
    assert s[j..j + 1][0] == s[j];
  }

  lemma {:induction false} SplitFromCount(s: string, c: char, from: nat)
    requires from <= |s|
    ensures |SplitFrom(s, [c], from)| == multiset(s[from..])[c] + 1
    decreases |s| - from
  {
    match Find(s, [c], from)
    case None =>
      SplitFromCountLast(s, c, from);
    case Some(i) =>
      SplitFromNext(s, [c], from, i);
      SplitFromCount(s, c, i + 1);
      SplitFromCountStep(s, c, from, i);
  }

  lemma SplitFromCountLast(s: string, c: char, from: nat)
    requires from <= |s| && Find(s, [c], from).None?
    ensures |SplitFrom(s, [c], from)| == multiset(s[from..])[c] + 1
  {
    SplitFromLast(s, [c], from);
    NoCharFrom(s, c, from, |s|);
    assert s[from..|s|] == s[from..];
    assert multiset(s[from..])[c] == 0;
  }

  /** Before the first occurrence found from `from`, the character does not occur. */
  lemma NoCharFrom(s: string, c: char, from: nat, i: nat)
    requires from <= i <= |s|
    requires forall j: nat :: from <= j < i ==> !OccursAt(s, [c], j)
    ensures c !in s[from..i]
  {
    forall j | from <= j < i
      ensures s[j] != c
    {
      OccursChar(s, c, j);
    }
    assert forall j :: 0 <= j < i - from ==> s[from..i][j] == s[from + j];
  }

  lemma SplitFromCountStep(s: string, c: char, from: nat, i: nat)
    requires from <= |s| && Find(s, [c], from) == Some(i)
    requires i + 1 <= |s| && |SplitFrom(s, [c], i + 1)| == multiset(s[i + 1..])[c] + 1
    ensures |SplitFrom(s, [c], from)| == multiset(s[from..])[c] + 1
  {
    SplitFromNext(s, [c], from, i);
    assert |SplitFrom(s, [c], from)| == 1 + |SplitFrom(s, [c], i + 1)|;
    OccursChar(s, c, i);
    NoCharFrom(s, c, from, i);
    assert s[from..] == s[from..i] + [c] + s[i + 1..];
    assert multiset(s[from..]) == multiset(s[from..i]) + multiset([c]) + multiset(s[i + 1..]);
    assert multiset(s[from..i])[c] == 0;
  }

  /** Splitting on one character yields one more piece than the character's occurrences. */
  lemma SplitCount(s: string, c: char)
    ensures |Split(s, [c])| == multiset(s)[c] + 1
  {
    SplitFromCount(s, c, 0);
    assert s[0..] == s;
  }

  /** For one character, containment is sequence membership. */
  lemma ContainsChar(s: string, c: char)
    ensures Contains(s, [c]) <==> c in s
  {
    if c in s {
      var i :| 0 <= i < |s| && s[i] == c;
      assert OccursAt(s, [c], i);
    }
    if Contains(s, [c]) {
      var i :| 0 <= i <= |s| - 1 && OccursAt(s, [c], i);
      assert s[i..i + 1][0] == s[i];
    }
  }

  /** Splitting `a + [c] + b` on `c` when neither side contains `c` gives `[a, b]`. */
  lemma SplitPair(a: string, c: char, b: string)
    requires c !in a && c !in b
    ensures Split(a + [c] + b, [c]) == [a, b]
  {
    var s := a + [c] + b;
    forall j: nat | OccursAt(s, [c], j)
      ensures j == |a|
    {
      assert s[j..j + 1][0] == s[j];
    }
    assert s[|a|..|a| + 1] == [c];
    assert OccursAt(s, [c], |a|);
    var f := Find(s, [c], 0);
    assert f.Some?;
    assert OccursAt(s, [c], f.value);
    assert f == Some(|a|);
    assert Find(s, [c], |a| + 1) == None;
    assert SplitFrom(s, [c], |a| + 1) == [s[|a| + 1..]];
    assert s[0..|a|] == a;
    assert s[|a| + 1..] == b;
  }

  /** An occurrence past a prefix `p` is an occurrence in the remainder. */
  lemma OccursShift(p: string, t: string, sub: string, j: nat)
    ensures OccursAt(p + t, sub, |p| + j) <==> OccursAt(t, sub, j)
  {
    if j + |sub| <= |t| {
      assert (p + t)[|p| + j..|p| + j + |sub|] == t[j..j + |sub|];
    }
  }

  lemma {:induction false} FindShift(p: string, t: string, sep: string, from: nat)
    requires |sep| > 0 && from <= |t|
    ensures Find(p + t, sep, |p| + from) == (if Find(t, sep, from).Some? then Some(|p| + Find(t, sep, from).value) else None)
    decreases |t| - from
  {
    OccursShift(p, t, sep, from);
    if from + |sep| <= |t| && !OccursAt(t, sep, from) {
      FindShift(p, t, sep, from + 1);
    }
  }

  /** The last piece is the rest of the string. */
  lemma SplitFromLast(s: string, sep: string, from: nat)
    requires |sep| > 0 && from <= |s| && Find(s, sep, from).None?
    ensures SplitFrom(s, sep, from) == [s[from..]]
  {
  }

  /** A found separator ends the first piece. */
  lemma SplitFromNext(s: string, sep: string, from: nat, i: nat)
    requires |sep| > 0 && from <= |s| && Find(s, sep, from) == Some(i)
    ensures i + |sep| <= |s|
    ensures SplitFrom(s, sep, from) == [s[from..i]] + SplitFrom(s, sep, i + |sep|)
  {
  }

  /** Splitting past a prefix ignores the prefix. */
  lemma {:induction false} SplitFromShift(p: string, t: string, sep: string, from: nat)
    requires |sep| > 0 && from <= |t|
    ensures SplitFrom(p + t, sep, |p| + from) == SplitFrom(t, sep, from)
    decreases |t| - from
  {
    FindShift(p, t, sep, from);
    var s := p + t;
    var f := Find(t, sep, from);
    if f.None? {
      SplitFromLast(s, sep, |p| + from);
      SplitFromLast(t, sep, from);
      assert s[|p| + from..] == t[from..];
    } else {
      SplitFromNext(t, sep, from, f.value);
      SplitFromShift(p, t, sep, f.value + |sep|);
      SplitFromShiftStep(p, t, sep, from, f.value);
    }
  }

  lemma SplitFromShiftStep(p: string, t: string, sep: string, from: nat, i: nat)
    requires |sep| > 0 && from <= |t| && Find(t, sep, from) == Some(i)
    requires Find(p + t, sep, |p| + from) == Some(|p| + i)
    requires i + |sep| <= |t| && SplitFrom(p + t, sep, |p| + (i + |sep|)) == SplitFrom(t, sep, i + |sep|)
    ensures SplitFrom(p + t, sep, |p| + from) == SplitFrom(t, sep, from)
  {
    var s := p + t;
    SplitFromNext(s, sep, |p| + from, |p| + i);
    SplitFromNext(t, sep, from, i);
    SliceShift(p, t, from, i);
  }

  /** A slice past a prefix is the slice of what follows the prefix. */
  lemma SliceShift(p: string, t: string, a: nat, b: nat)
    requires a <= b <= |t|
    ensures (p + t)[|p| + a..|p| + b] == t[a..b]
  {
  }

  /** When `sep` first occurs right after `a`, the first piece is `a` and the rest is the split of what follows. */
  lemma SplitHead(a: string, sep: string, t: string)
    requires |sep| > 0
    requires forall j: nat :: j < |a| ==> !OccursAt(a + sep + t, sep, j)
    ensures Split(a + sep + t, sep) == [a] + Split(t, sep)
  {
    var s := a + sep + t;
    assert s[|a|..|a| + |sep|] == sep;
    assert OccursAt(s, sep, |a|);
    var f := Find(s, sep, 0);
    assert f.Some?;
    assert f.value == |a|;
    assert s == (a + sep) + t;
    SplitFromShift(a + sep, t, sep, 0);
    assert s[0..|a|] == a;
  }

  /** Joining pieces free of `c` with `c` and splitting on `c` gives the pieces back. */
  lemma {:induction false} JoinSplit(parts: seq<string>, c: char)
    requires |parts| > 0
    requires forall i :: 0 <= i < |parts| ==> c !in parts[i]
    ensures Split(Join(parts, [c]), [c]) == parts
  {
    if |parts| == 1 {
      ContainsChar(parts[0], c);
      SplitSingle(parts[0], [c]);
    } else {
      var a := parts[0];
      var t := Join(parts[1..], [c]);
      JoinSplit(parts[1..], c);
      forall j: nat | j < |a|
        ensures !OccursAt(a + [c] + t, [c], j)
      {
        OccursChar(a + [c] + t, c, j);
      }
      SplitHead(a, [c], t);
    }
  }

  // ----- Character maps -----

  /** `str.upper` on one character, for the ASCII letters. */
  function UpperChar(ch: char): (u: char)
    ensures !('a' <= u <= 'z')
    ensures !('a' <= ch <= 'z') ==> u == ch
  {
    if 'a' <= ch <= 'z' then (ch as int - 32) as char else ch
  }

  /** Python's `s.upper()`, restricted to ASCII case mapping. */
  function Upper(s: string): (u: string)
    ensures |u| == |s|
    ensures forall i :: 0 <= i < |s| ==> u[i] == UpperChar(s[i])
  {
    seq(|s|, i requires 0 <= i < |s| => UpperChar(s[i]))
  }

  /** Python's `s.replace(a, b)` for single characters. */
  function ReplaceChar(s: string, a: char, b: char): (r: string)
    ensures |r| == |s|
    ensures forall i :: 0 <= i < |s| ==> r[i] == (if s[i] == a then b else s[i])
  {
    seq(|s|, i requires 0 <= i < |s| => if s[i] == a then b else s[i])
  }

  // ----- Integer literals -----

  predicate IsDigit(ch: char)
  {
    '0' <= ch <= '9'
  }

  predicate IsDigits(s: string)
  {
    |s| > 0 && forall i :: 0 <= i < |s| ==> IsDigit(s[i])
  }

  /** A literal `int()` accepts: an optional sign followed by decimal digits. */
  predicate IsIntLiteral(s: string)
  {
    IsDigits(s) || (|s| > 1 && (s[0] == '+' || s[0] == '-') && IsDigits(s[1..]))
  }

  function DigitsValue(s: string): nat
    requires forall i :: 0 <= i < |s| ==> IsDigit(s[i])
  {
    if |s| == 0 then 0
    else
      assert IsDigit(s[|s| - 1]);
      DigitsValue(s[..|s| - 1]) * 10 + (s[|s| - 1] as int - '0' as int)
  }

  /** Python's `int(s)` on a literal. */
  function ParseInt(s: string): int
    requires IsIntLiteral(s)
  {
    if IsDigits(s) then DigitsValue(s) as int
    else if s[0] == '-' then 0 - DigitsValue(s[1..])
    else DigitsValue(s[1..]) as int
  }

  function DigitChar(d: nat): (ch: char)
    requires d < 10
    ensures IsDigit(ch) && ch as int - '0' as int == d
  {
    ('0' as int + d) as char
  }

  /** Decimal rendering of an integer, the inverse of `ParseInt`. */
  function ShowNat(n: nat): (s: string)
    ensures IsDigits(s)
  {
    if n < 10 then [DigitChar(n)] else ShowNat(n / 10) + [DigitChar(n % 10)]
  }

  function ShowInt(n: int): (s: string)
  {
    if n < 0 then "-" + ShowNat(-n) else ShowNat(n)
  }

  lemma {:induction false} DigitsShowNat(n: nat)
    ensures DigitsValue(ShowNat(n)) == n
  {
    if n >= 10 {
      var s := ShowNat(n);
      DigitsShowNat(n / 10);
      assert s[..|s| - 1] == ShowNat(n / 10);
    }
  }

  /** Every rendered integer is a literal that `int()` reads back unchanged. */
  lemma ParseShowInt(n: int)
    ensures IsIntLiteral(ShowInt(n))
    ensures ParseInt(ShowInt(n)) == n
  {
    if n < 0 {
      assert ShowInt(n)[1..] == ShowNat(-n);
      DigitsShowNat(-n);
    } else {
      DigitsShowNat(n);
    }
  }
}
