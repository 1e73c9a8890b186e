// get_regex (src/main.py:62-66): the regular expression that picks package
// archive URLs out of the index page. The model builds the pattern's source
// text; compiling and matching it are not part of this model.

module UrlPattern {
  import opened PyStr

  const Scheme := "https{0,1}://"
  const Tail := "/.*\\.zip"
  const Sep := "://"

  /** The pattern text, or the IndexError that `split("://")[1]` raises when the root has no "://". */
  datatype PatternResult = Pattern(source: string) | IndexError

  /** Python's `s.replace(".", "\\.")`: every dot is preceded by a backslash. */
  function EscapeDots(s: string): (r: string)
    ensures |r| >= |s|
    ensures forall i :: 0 <= i < |r| && r[i] == '.' ==> 0 < i && r[i - 1] == '\\'
    decreases |s|
  {
    if |s| == 0 then ""
    else (if s[0] == '.' then "\\." else [s[0]]) + EscapeDots(s[1..])
  }

  /** Reads an escaped dot `\.` back as `.`; every other character stays. */
  function UnescapeDots(s: string): string
    decreases |s|
  {
    if |s| == 0 then ""
    else if |s| >= 2 && s[0] == '\\' && s[1] == '.' then "." + UnescapeDots(s[2..])
    else [s[0]] + UnescapeDots(s[1..])
  }

  /** Escaping loses nothing: the escaped text reads back as the original. */
  lemma {:induction false} UnescapeEscapeDots(s: string)
    ensures UnescapeDots(EscapeDots(s)) == s
    decreases |s|
  {
    if |s| > 0 {
      var e := EscapeDots(s);
      UnescapeEscapeDots(s[1..]);
      if s[0] == '.' {
        assert e[2..] == EscapeDots(s[1..]);
      } else {
        assert e[1..] == EscapeDots(s[1..]);
        assert |e| >= 2 ==> e[1] != '.';
      }
    }
  }

  lemma {:induction false} EscapeDotsConcat(a: string, b: string)
    ensures EscapeDots(a + b) == EscapeDots(a) + EscapeDots(b)
    decreases |a|
  {
    if |a| > 0 {
      assert (a + b)[1..] == a[1..] + b;
      EscapeDotsConcat(a[1..], b);
    } else {
      assert a + b == b;
    }
  }

  /** `find` on a text whose first character is `c`, in terms of the rest. */
  lemma FindCons(c: char, s: string, pat: string)
    ensures Find([c] + s, pat) ==
      if OccursAt([c] + s, pat, 0) then 0
      else if Find(s, pat) == -1 then -1
      else Find(s, pat) + 1
  {
    var t := [c] + s;
    assert t[1..] == s;
    ShiftOccurs(t, pat);
    FindFirst(s, pat);
    if OccursAt(t, pat, 0) {
      FindIsFirst(t, pat, 0);
    } else if Find(s, pat) == -1 {
      FindAbsent(t, pat);
    } else {
      FindIsFirst(t, pat, Find(s, pat) + 1);
    }
  }

  /** The escaped text starts with "://" exactly when the original does. */
  lemma SepAtStartEscaped(s: string)
    ensures OccursAt(EscapeDots(s), Sep, 0) <==> OccursAt(s, Sep, 0)
  {
    var e := EscapeDots(s);
    if OccursAt(e, Sep, 0) {
      assert e[0] == ':' && e[1] == '/' && e[2] == '/';
      assert e[0] == (if s[0] == '.' then '\\' else s[0]);
      var e1 := EscapeDots(s[1..]);
      assert e[1..] == e1;
      assert e1[0] == (if s[1] == '.' then '\\' else s[1]);
      var e2 := EscapeDots(s[2..]);
      assert e1[1..] == e2;
      assert e2[0] == (if s[2] == '.' then '\\' else s[2]);
      assert s[..3] == Sep;
    }
    if OccursAt(s, Sep, 0) {
      assert s == Sep + s[3..];
      EscapeDotsConcat(Sep, s[3..]);
      assert EscapeDots(Sep) == Sep;
    }
  }

  /** The first "://" of an escaped dot followed by `t` is two places after that of `t`. */
  lemma FindAfterEscapedDot(t: string)
    ensures Find("\\." + t, Sep) == if Find(t, Sep) == -1 then -1 else Find(t, Sep) + 2
  {
    var d := ['.'] + t;
    assert "\\." + t == ['\\'] + d;
    FindCons('\\', d, Sep);
    FindCons('.', t, Sep);
    assert (['\\'] + d)[0] != Sep[0];
    assert d[0] != Sep[0];
  }

  /** Escaping a one-character head adds its escaped length to every position. */
  lemma EscapedPrefixLength(s: string, k: nat)
    requires 0 < |s| && k < |s|
    ensures |EscapeDots(s[..k + 1])| == |EscapeDots([s[0]])| + |EscapeDots(s[1..][..k])|
  {
    assert s[..k + 1] == [s[0]] + s[1..][..k];
    EscapeDotsConcat([s[0]], s[1..][..k]);
  }

  /**
   * Escaping dots does not create or destroy "://": the first one in the
   * escaped text is where the escaped prefix before the original's first one ends.
   */
  lemma {:induction false} FindSepEscaped(s: string)
    ensures Find(EscapeDots(s), Sep) ==
      if Find(s, Sep) == -1 then -1 else |EscapeDots(s[..Find(s, Sep)])|
    decreases |s|
  {
    if |s| == 0 {
      assert EscapeDots(s) == s;
    } else {
      var x, s' := s[0], s[1..];
      var e, e' := EscapeDots(s), EscapeDots(s');
      FindSepEscaped(s');
      assert s == [x] + s';
      FindCons(x, s', Sep);
      var k := Find(s', Sep);
      if k != -1 {
        EscapedPrefixLength(s, k);
      }
      SepAtStartEscaped(s);
      if x == '.' {
        assert e == "\\." + e';
        FindAfterEscapedDot(e');
        assert EscapeDots([x]) == "\\.";
      } else {
        assert e == [x] + e';
        FindCons(x, e', Sep);
        assert EscapeDots([x]) == [x];
        if OccursAt(s, Sep, 0) {
          assert s[..0] == [];
        }
      }
    }
  }

  /** Splitting the escaped text on "://" yields the escaped pieces of the original. */
  lemma {:induction false} SplitSepEscaped(s: string)
    ensures |Split(EscapeDots(s), Sep)| == |Split(s, Sep)|
    ensures forall i :: 0 <= i < |Split(s, Sep)| ==> Split(EscapeDots(s), Sep)[i] == EscapeDots(Split(s, Sep)[i])
    decreases |s|
  {
    var e := EscapeDots(s);
    FindSepEscaped(s);
    var k := Find(s, Sep);
    if k == -1 {
      SplitWhole(s, Sep);
      SplitWhole(e, Sep);
    } else {
      var rest := s[k + 3..];
      var K := |EscapeDots(s[..k])|;
      CutAt(s, Sep);
      EscapedAroundSep(s[..k], rest);
      SplitFirst(s, Sep);
      SplitFirst(e, Sep);
      SplitSepEscaped(rest);
      EscapedCons(s[..k], Split(rest, Sep), Split(EscapeDots(rest), Sep));
    }
  }

  lemma EscapedCons(h: string, t: seq<string>, u: seq<string>)
    requires |u| == |t| && forall i :: 0 <= i < |t| ==> u[i] == EscapeDots(t[i])
    ensures var a, b := [h] + t, [EscapeDots(h)] + u;
      |b| == |a| && forall i :: 0 <= i < |a| ==> b[i] == EscapeDots(a[i])
  {
    var a, b := [h] + t, [EscapeDots(h)] + u;
    forall i | 0 < i < |a| ensures b[i] == EscapeDots(a[i]) {
      assert a[i] == t[i - 1] && b[i] == u[i - 1];
    }
  }

  /** Escaping text that is cut at a "://" escapes the two sides and keeps the "://". */
  lemma EscapedAroundSep(a: string, b: string)
    ensures var e := EscapeDots(a + Sep + b);
      e == EscapeDots(a) + Sep + EscapeDots(b) &&
      e[..|EscapeDots(a)|] == EscapeDots(a) && e[|EscapeDots(a)| + 3..] == EscapeDots(b)
  {
    assert a + Sep + b == a + (Sep + b);
    EscapeDotsConcat(a, Sep + b);
    EscapeDotsConcat(Sep, b);
    assert EscapeDots(Sep) == Sep;
  }

  /**
   * The piece of the root URL that get_regex keeps: what follows the first
   * "://", up to a second "://" if there is one.
   */
  lemma HostSegment(s: string)
    requires Contains(s, Sep)
    ensures |Split(s, Sep)| >= 2
    ensures var rest := s[Find(s, Sep) + 3..];
      Split(s, Sep)[1] == if Contains(rest, Sep) then rest[..Find(rest, Sep)] else rest
  {
  }

  /**
   * get_regex: "https{0,1}://", then the root URL's segment after its first
   * "://" (up to any second "://") with every dot escaped, then "/.*\.zip".
   * A root without "://" raises IndexError.
   */
  function GetRegex(snarfpath: string): (r: PatternResult)
    ensures r.IndexError? <==> !Contains(snarfpath, Sep)
    ensures r.Pattern? ==>
      var rest := snarfpath[Find(snarfpath, Sep) + 3..];
      r.source == Scheme + EscapeDots(if Contains(rest, Sep) then rest[..Find(rest, Sep)] else rest) + Tail
  {
    var parts := Split(EscapeDots(snarfpath), Sep);
    SplitSepEscaped(snarfpath);
    if |parts| < 2 then IndexError
    else HostSegment(snarfpath); Pattern(Scheme + parts[1] + Tail)
  }
}
