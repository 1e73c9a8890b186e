// The handful of Python `str` operations that src/main.py relies on, with
// their own semantics written out: `in`, `find`, `split`,
// `replace(pat, "")`, `strip(c)`, `endswith`, `isdigit`, `int(...)` on a
// digit string and `str(n)` / f"{n}" on a natural number. `Join` and
// `Concat` are not used by the tool; they state what `split` and `replace`
// compute.

module PyStr {

  /** `pat` occurs in `s` starting at index `i`. */
  predicate OccursAt(s: string, pat: string, i: int) {
    0 <= i && i + |pat| <= |s| && s[i..i + |pat|] == pat
  }

  /** Python's `pat in s`: `pat` occurs somewhere in `s`. */
  predicate Contains(s: string, pat: string) {
    Find(s, pat) != -1
  }

  /** `pat in s` holds exactly when `pat` occurs at some index of `s`. */
  lemma ContainsOccurs(s: string, pat: string)
    ensures Contains(s, pat) <==> exists i :: OccursAt(s, pat, i)
  {
    FindFirst(s, pat);
  }

  /** Python's `s.find(pat)`: the first index at which `pat` occurs, or -1. */
  function Find(s: string, pat: string): (r: int)
    ensures r == -1 || (0 <= r && r + |pat| <= |s|)
  {
    FindFrom(s, pat, 0)
  }

  /** The scan behind `find`, from index `i` on. */
  function FindFrom(s: string, pat: string, i: nat): (r: int)
    ensures r == -1 || (i <= r && r + |pat| <= |s|)
    decreases |s| - i
  {
    if i + |pat| > |s| then -1
    else if s[i..i + |pat|] == pat then i
    else FindFrom(s, pat, i + 1)
  }

  /** The scan from `i` finds the first occurrence at or after `i`, and -1 when there is none. */
  lemma {:induction false} FindFromFirst(s: string, pat: string, i: nat)
    ensures FindFrom(s, pat, i) == -1 ==> forall j :: i <= j ==> !OccursAt(s, pat, j)
    ensures FindFrom(s, pat, i) != -1 ==>
      OccursAt(s, pat, FindFrom(s, pat, i)) && forall j :: i <= j < FindFrom(s, pat, i) ==> !OccursAt(s, pat, j)
    decreases |s| - i
  {
    if i + |pat| <= |s| && s[i..i + |pat|] != pat {
      FindFromFirst(s, pat, i + 1);
    }
  }

  /** `find` gives the first occurrence, and -1 exactly when there is none. */
  lemma FindFirst(s: string, pat: string)
    ensures Find(s, pat) == -1 ==> forall i :: !OccursAt(s, pat, i)
    ensures Find(s, pat) != -1 ==> OccursAt(s, pat, Find(s, pat)) && forall j :: 0 <= j < Find(s, pat) ==> !OccursAt(s, pat, j)
  {
    FindFromFirst(s, pat, 0);
  }

  /** `i` is the first index at which `pat` occurs in `s`. */
  ghost predicate IsFirst(s: string, pat: string, i: int) {
    OccursAt(s, pat, i) && forall j :: 0 <= j < i ==> !OccursAt(s, pat, j)
  }

  lemma FindIsFirst(s: string, pat: string, i: int)
    requires IsFirst(s, pat, i)
    ensures Find(s, pat) == i
  {
    FindFirst(s, pat);
  }

  lemma FindAbsent(s: string, pat: string)
    requires forall i :: !OccursAt(s, pat, i)
    ensures Find(s, pat) == -1
  {
    FindFirst(s, pat);
  }

  /** An occurrence past index 0 of `s` is an occurrence in `s[1..]`, one place earlier. */
  lemma ShiftOccurs(s: string, pat: string)
    requires |s| > 0
    ensures forall i :: 1 <= i ==> (OccursAt(s, pat, i) <==> OccursAt(s[1..], pat, i - 1))
  {
    forall i | 1 <= i
      ensures OccursAt(s, pat, i) <==> OccursAt(s[1..], pat, i - 1)
    {
      if i + |pat| <= |s| {
        assert s[1..][i - 1..i - 1 + |pat|] == s[i..i + |pat|];
      }
    }
  }

  /** An occurrence that ends by index `k` is the same in `s` and in `s[..k]`. */
  lemma PrefixOccurs(s: string, pat: string, k: int)
    requires 0 <= k <= |s|
    ensures forall i :: i + |pat| <= k ==> (OccursAt(s[..k], pat, i) <==> OccursAt(s, pat, i))
  {
    forall i | i + |pat| <= k
      ensures OccursAt(s[..k], pat, i) <==> OccursAt(s, pat, i)
    {
      if 0 <= i {
        assert s[..k][i..i + |pat|] == s[i..i + |pat|];
      }
    }
  }

  /** An occurrence that starts at or after index `k` moves `k` places left in `s[k..]`. */
  lemma SuffixOccurs(s: string, pat: string, k: int)
    requires 0 <= k <= |s|
    ensures forall i :: k <= i ==> (OccursAt(s, pat, i) <==> OccursAt(s[k..], pat, i - k))
  {
    forall i | k <= i
      ensures OccursAt(s, pat, i) <==> OccursAt(s[k..], pat, i - k)
    {
      if i + |pat| <= |s| {
        assert s[k..][i - k..i - k + |pat|] == s[i..i + |pat|];
      }
    }
  }

  /** A one-character pattern occurs exactly where that character stands. */
  lemma OccursChar(s: string, c: char)
    ensures forall i :: OccursAt(s, [c], i) <==> 0 <= i < |s| && s[i] == c
    ensures Contains(s, [c]) <==> c in s
  {
    FindFirst(s, [c]);
    forall i | 0 <= i < |s|
      ensures OccursAt(s, [c], i) <==> s[i] == c
    {
      assert s[i..i + 1] == [s[i]];
    }
    if c in s {
      var i :| 0 <= i < |s| && s[i] == c;
      assert OccursAt(s, [c], i);
    }
  }

  /** Python's `sep.join(parts)`. */
  function Join(parts: seq<string>, sep: string): string {
    if |parts| == 0 then ""
    else if |parts| == 1 then parts[0]
    else parts[0] + sep + Join(parts[1..], sep)
  }

  /** Joining at least two pieces puts the separator before the last one. */
  lemma {:induction false} JoinLast(parts: seq<string>, sep: string)
    requires |parts| >= 2
    ensures Join(parts, sep) == Join(parts[..|parts| - 1], sep) + sep + parts[|parts| - 1]
    decreases |parts|
  {
    var n := |parts|;
    var init := parts[..n - 1];
    if n == 2 {
      assert init == [parts[0]] && parts[1..] == [parts[1]];
    } else {
      var tail := parts[1..];
      JoinLast(tail, sep);
      assert init[1..] == tail[..|tail| - 1];
      assert Join(init, sep) == parts[0] + sep + Join(tail[..|tail| - 1], sep);
    }
  }

  /** The concatenation of `parts`: Python's `"".join(parts)`. */
  function Concat(parts: seq<string>): string {
    if |parts| == 0 then "" else parts[0] + Concat(parts[1..])
  }

  /**
   * Python's `s.split(sep)` for a non-empty separator: the pieces between the
   * occurrences of `sep`, found left to right without overlap.
   */
  function Split(s: string, sep: string): (parts: seq<string>)
    requires |sep| > 0
    ensures |parts| >= 1
    ensures |parts| == 1 <==> Find(s, sep) == -1
    ensures Find(s, sep) != -1 ==> parts[0] == s[..Find(s, sep)]
    decreases |s|
  {
    var k := Find(s, sep);
    if k == -1 then [s] else [s[..k]] + Split(s[k + |sep|..], sep)
  }

  /** No piece of a split holds the separator. */
  lemma {:induction false} SplitPiecesLackSep(s: string, sep: string)
    requires |sep| > 0
    ensures forall i :: 0 <= i < |Split(s, sep)| ==> !Contains(Split(s, sep)[i], sep)
    decreases |s|
  {
    var k := Find(s, sep);
    if k != -1 {
      var rest := s[k + |sep|..];
      SplitPiecesLackSep(rest, sep);
      SplitFirst(s, sep);
      BeforeFirstLacks(s, sep);
      ConsLacks(s[..k], Split(rest, sep), sep);
    } else {
      SplitWhole(s, sep);
    }
  }

  /** The text before the first occurrence of `pat` does not contain `pat`. */
  lemma BeforeFirstLacks(s: string, pat: string)
    requires |pat| > 0 && Find(s, pat) != -1
    ensures !Contains(s[..Find(s, pat)], pat)
  {
    var k := Find(s, pat);
    FindFirst(s, pat);
    FindFirst(s[..k], pat);
    PrefixOccurs(s, pat, k);
  }

  lemma ConsLacks(h: string, t: seq<string>, sep: string)
    requires !Contains(h, sep) && forall i :: 0 <= i < |t| ==> !Contains(t[i], sep)
    ensures forall i :: 0 <= i < |[h] + t| ==> !Contains(([h] + t)[i], sep)
  {
    forall i | 0 <= i < |[h] + t| ensures !Contains(([h] + t)[i], sep) {
      if i > 0 {
        assert ([h] + t)[i] == t[i - 1];
      }
    }
  }

  /** Joining the pieces with the separator gives back the text: `sep.join(s.split(sep)) == s`. */
  lemma {:induction false} JoinSplit(s: string, sep: string)
    requires |sep| > 0
    ensures Join(Split(s, sep), sep) == s
    decreases |s|
  {
    var k := Find(s, sep);
    if k != -1 {
      var rest := s[k + |sep|..];
      JoinSplit(rest, sep);
      var parts, tail := Split(s, sep), Split(rest, sep);
      SplitFirst(s, sep);
      CutAt(s, sep);
      assert parts[1..] == tail;
      assert Join(parts, sep) == s[..k] + sep + Join(tail, sep);
    }
  }

  /** Text with an occurrence of `pat` is what precedes its first one, `pat`, and what follows. */
  lemma CutAt(s: string, pat: string)
    requires Find(s, pat) != -1
    ensures s == s[..Find(s, pat)] + pat + s[Find(s, pat) + |pat|..]
  {
    FindFirst(s, pat);
  }

  /** Text without `sep` splits into itself alone. */
  lemma SplitWhole(s: string, sep: string)
    requires |sep| > 0 && Find(s, sep) == -1
    ensures Split(s, sep) == [s]
  {
  }

  /** Text with `sep` splits into the piece before its first `sep` and the split of the rest. */
  lemma SplitFirst(s: string, sep: string)
    requires |sep| > 0 && Find(s, sep) != -1
    ensures Split(s, sep) == [s[..Find(s, sep)]] + Split(s[Find(s, sep) + |sep|..], sep)
  {
  }

  /** Python's `s.replace(pat, "")`: one left-to-right pass deleting non-overlapping occurrences. */
  function RemoveAll(s: string, pat: string): (r: string)
    requires |pat| > 0
    ensures |r| <= |s|
    ensures !Contains(s, pat) ==> r == s
    ensures Contains(s, pat) ==> |r| + |pat| <= |s|
    decreases |s|
  {
    var k := Find(s, pat);
    if k == -1 then s else s[..k] + RemoveAll(s[k + |pat|..], pat)
  }

  /** Deleting occurrences of a pattern brings in no character that was not there. */
  lemma {:induction false} RemoveAllKeepsAbsent(s: string, pat: string, c: char)
    requires |pat| > 0 && c !in s
    ensures c !in RemoveAll(s, pat)
    decreases |s|
  {
    var k := Find(s, pat);
    if k != -1 {
      var rest := s[k + |pat|..];
      assert c !in s[..k] && c !in rest by {
        assert s == s[..k] + s[k..k + |pat|] + rest;
      }
      RemoveAllKeepsAbsent(rest, pat, c);
    }
  }

  /** Deleting every occurrence is joining the split pieces with nothing in between. */
  lemma {:induction false} RemoveAllIsConcatOfSplit(s: string, pat: string)
    requires |pat| > 0
    ensures RemoveAll(s, pat) == Concat(Split(s, pat))
    decreases |s|
  {
    var k := Find(s, pat);
    if k != -1 {
      RemoveAllIsConcatOfSplit(s[k + |pat|..], pat);
    }
  }

  /** Python's `s.endswith(suffix)`. */
  predicate EndsWith(s: string, suffix: string) {
    |suffix| <= |s| && s[|s| - |suffix|..] == suffix
  }

  /** `s.endswith(suffix)` holds exactly when `s` is some text followed by `suffix`. */
  lemma EndsWithConcat(s: string, suffix: string)
    ensures EndsWith(s, suffix) <==> exists p :: p + suffix == s
  {
    if EndsWith(s, suffix) {
      assert s[..|s| - |suffix|] + suffix == s;
    }
    forall p | p + suffix == s ensures EndsWith(s, suffix) {
      assert s[|s| - |suffix|..] == (p + suffix)[|p|..];
    }
  }

  /** Python's `s.lstrip(c)` for one character `c`. */
  function StripLeft(s: string, c: char): (r: string)
    ensures |r| <= |s| && r == s[|s| - |r|..]
    ensures IsRun(s[..|s| - |r|], c)
    ensures |r| > 0 ==> r[0] != c
    decreases |s|
  {
    if |s| > 0 && s[0] == c then
      var r := StripLeft(s[1..], c);
      assert s[..|s| - |r|] == [c] + s[1..][..|s[1..]| - |r|];
      r
    else s
  }

  /** Python's `s.rstrip(c)` for one character `c`. */
  function StripRight(s: string, c: char): (r: string)
    ensures |r| <= |s| && r == s[..|r|]
    ensures IsRun(s[|r|..], c)
    ensures |r| > 0 ==> r[|r| - 1] != c
    decreases |s|
  {
    if |s| > 0 && s[|s| - 1] == c then
      var r := StripRight(s[..|s| - 1], c);
      assert s[|r|..] == s[..|s| - 1][|r|..] + [c];
      r
    else s
  }

  /**
   * Python's `s.strip(c)`: `s` with every leading and trailing `c` removed.
   * The result is the infix `s[lo..lo + |r|]`, everything around it is `c`,
   * and the result neither begins nor ends with `c`.
   */
  function Strip(s: string, c: char): (r: string)
    ensures exists lo :: StripsTo(s, c, lo, r)
    ensures |r| > 0 ==> r[0] != c && r[|r| - 1] != c
  {
    var l := StripLeft(s, c);
    var r := StripRight(l, c);
    InfixBetweenRuns(s, c, l, r);
    r
  }

  /** A suffix after a run of `c`, cut before a run of `c`, is an infix with only `c` around it. */
  lemma InfixBetweenRuns(s: string, c: char, l: string, r: string)
    requires |l| <= |s| && l == s[|s| - |l|..] && IsRun(s[..|s| - |l|], c)
    requires |r| <= |l| && r == l[..|r|] && IsRun(l[|r|..], c)
    ensures StripsTo(s, c, |s| - |l|, r)
  {
    var lo := |s| - |l|;
    assert s[lo..lo + |r|] == l[..|r|];
    assert s[lo + |r|..] == l[|r|..];
  }

  /** `r` is `s[lo..lo + |r|]` and `s` holds only `c` outside that infix. */
  ghost predicate StripsTo(s: string, c: char, lo: int, r: string) {
    0 <= lo <= |s| - |r| && r == s[lo..lo + |r|] && IsRun(s[..lo], c) && IsRun(s[lo + |r|..], c)
  }

  /** Every character of `s` is `c`. */
  predicate IsRun(s: string, c: char) {
    forall i :: 0 <= i < |s| ==> s[i] == c
  }

  /** Stripping is idempotent. */
  lemma StripIdempotent(s: string, c: char)
    ensures Strip(Strip(s, c), c) == Strip(s, c)
  {
    var r := Strip(s, c);
    var r2 := Strip(r, c);
    var lo :| StripsTo(r, c, lo, r2);
  }

  function IsAsciiDigit(c: char): bool {
    '0' <= c <= '9'
  }

  /** Python's `s.isdigit()`, restricted to ASCII digits: non-empty and all digits. */
  predicate IsDigits(s: string) {
    |s| > 0 && forall i :: 0 <= i < |s| ==> IsAsciiDigit(s[i])
  }

  function DigitValue(c: char): nat
    requires IsAsciiDigit(c)
  {
    c as int - '0' as int
  }

  function DigitChar(d: nat): char
    requires d < 10
  {
    ('0' as int + d) as char
  }

  /**
   * Python's `int(s)` on a string of ASCII digits (leading zeros allowed).
   * A string that does not start with '0' reads as a positive number, and
   * as one of at least two digits when it has at least two.
   */
  function DecimalValue(s: string): (v: nat)
    requires forall i :: 0 <= i < |s| ==> IsAsciiDigit(s[i])
    ensures |s| > 0 && s[0] != '0' ==> v > 0
    ensures |s| > 1 && s[0] != '0' ==> v >= 10
  {
    if |s| == 0 then 0
    else
      var p := s[..|s| - 1];
      assert |p| > 0 ==> p[0] == s[0];
      10 * DecimalValue(p) + DigitValue(s[|s| - 1])
  }

  /** Python's `str(n)` (and f"{n}") on a natural number: decimal, no leading zeros. */
  function ShowNat(n: nat): (r: string)
    ensures IsDigits(r)
    ensures r[0] == '0' ==> n == 0
    ensures |r| > 1 ==> r[0] != '0'
  {
    if n < 10 then [DigitChar(n)] else ShowNat(n / 10) + [DigitChar(n % 10)]
  }

  /** `int(str(n)) == n`: reading back a printed index gives the index. */
  lemma {:induction false} DecimalValueOfShowNat(n: nat)
    ensures DecimalValue(ShowNat(n)) == n
  {
    var s := ShowNat(n);
    if n >= 10 {
      DecimalValueOfShowNat(n / 10);
      assert s[..|s| - 1] == ShowNat(n / 10);
    }
  }

  /** `str(int(s)) == s` for a digit string without a leading zero (or the single digit "0"). */
  lemma {:induction false} ShowNatOfDecimalValue(s: string)
    requires IsDigits(s) && (|s| == 1 || s[0] != '0')
    ensures ShowNat(DecimalValue(s)) == s
    decreases |s|
  {
    var n := DecimalValue(s);
    var d := DigitValue(s[|s| - 1]);
    if |s| == 1 {
      assert DecimalValue(s[..0]) == 0;
      assert n == d && DigitChar(d) == s[0];
    } else {
      var p := s[..|s| - 1];
      assert p[0] == s[0];
      ShowNatOfDecimalValue(p);
      assert n == 10 * DecimalValue(p) + d && d < 10;
      assert n / 10 == DecimalValue(p) && n % 10 == d;
      assert s == p + [s[|s| - 1]];
    }
  }
}
