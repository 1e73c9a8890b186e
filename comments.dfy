// remove_xml_comments (src/main.py:32-38): while the text still contains
// "<!--", splice out everything from the first "<!--" through the end of the
// first "-->". The loop is modelled exactly as written, without a guard: the
// first "-->" is searched from the start of the text, not from the "<!--",
// and a missing "-->" makes `find` return -1, so the splice keeps `text[2:]`.
// Such iterations need not shorten the text, and the loop then never stops;
// the method therefore requires that the loop, run on its input, reaches a
// text without "<!--" after finitely many iterations.

module Comments {
  import opened PyStr

  const Open := "<!--"
  const Close := "-->"

  /**
   * One iteration of the loop body: `text[:start] + text[end+3:]` with
   * `start = text.find("<!--")` and `end = text.find("-->")` (-1 when absent).
   * It shortens the text whenever the first "-->" does not start before the
   * first "<!--".
   */
  function Step(t: string): (r: string)
    requires Contains(t, Open)
    ensures Find(t, Close) >= Find(t, Open) ==> |r| < |t|
  {
    var start := Find(t, Open);
    var end := Find(t, Close);
    t[..start] + t[end + 3..]
  }

  /** The text after at most `n` iterations (the loop stops once no "<!--" is left). */
  function Iter(t: string, n: nat): string
    decreases n
  {
    if n == 0 || !Contains(t, Open) then t else Iter(Step(t), n - 1)
  }

  /** The loop stops on `t`: some number of iterations leaves no "<!--". */
  ghost predicate Halts(t: string) {
    exists n: nat :: !Contains(Iter(t, n), Open)
  }

  lemma {:induction false} IterSucc(t: string, m: nat)
    requires Contains(Iter(t, m), Open)
    ensures Iter(t, m + 1) == Step(Iter(t, m))
    decreases m
  {
    if m > 0 {
      IterSucc(Step(t), m - 1);
    }
  }

  lemma {:induction false} IterStable(t: string, m: nat, n: nat)
    requires !Contains(Iter(t, m), Open) && m <= n
    ensures Iter(t, n) == Iter(t, m)
    decreases m
  {
    if m > 0 && Contains(t, Open) {
      IterStable(Step(t), m - 1, n - 1);
    }
  }

  /**
   * The loop of remove_xml_comments. The result has no "<!--" left and is
   * the text the loop reaches: every iterate of the input without "<!--"
   * equals it.
   */
  method RemoveXmlComments(text: string) returns (r: string)
    requires Halts(text)
    ensures !Contains(r, Open)
    ensures forall n: nat :: !Contains(Iter(text, n), Open) ==> r == Iter(text, n)
  {
    ghost var fuel: nat :| !Contains(Iter(text, fuel), Open);
    r := text;
    ghost var m: nat := 0;
    while Contains(r, Open)
      invariant r == Iter(text, m)
      invariant forall j: nat :: j < m ==> Contains(Iter(text, j), Open)
      invariant m <= fuel
      decreases fuel - m
    {
      IterSucc(text, m);
      r := Step(r);
      m := m + 1;
    }
    forall n: nat | !Contains(Iter(text, n), Open)
      ensures r == Iter(text, n)
    {
      if m <= n {
        IterStable(text, m, n);
      }
    }
  }

  /** Text without "<!--" is returned unchanged, so stripping twice is stripping once. */
  method RemoveXmlCommentsTwice(text: string) returns (once: string, twice: string)
    requires Halts(text)
    ensures !Contains(once, Open) && twice == once
  {
    once := RemoveXmlComments(text);
    assert Iter(once, 0) == once;
    twice := RemoveXmlComments(once);
  }

  /**
   * When the first "-->" starts at or after the first "<!--", one iteration
   * removes exactly that span: the prefix before it (which holds no "<!--")
   * and the text after the "-->" are kept, and the text gets shorter.
   */
  lemma StepRemovesFirstComment(t: string, start: int, end: int)
    requires IsFirst(t, Open, start) && IsFirst(t, Close, end) && start <= end
    ensures Contains(t, Open) && Step(t) == t[..start] + t[end + 3..]
    ensures !Contains(t[..start], Open)
    ensures |Step(t)| < |t|
  {
    FindIsFirst(t, Open, start);
    FindIsFirst(t, Close, end);
    BeforeFirstLacks(t, Open);
  }

  /** Every iteration the loop makes on `t` has its first "-->" at or after its first "<!--". */
  ghost predicate WellNested(t: string)
    decreases |t|
  {
    !Contains(t, Open) || (Find(t, Close) >= Find(t, Open) && WellNested(Step(t)))
  }

  /** On such text every iteration shortens it, so the loop stops. */
  lemma {:induction false} WellNestedHalts(t: string)
    requires WellNested(t)
    ensures Halts(t)
    decreases |t|
  {
    if !Contains(t, Open) {
      assert !Contains(Iter(t, 0), Open);
    } else {
      WellNestedHalts(Step(t));
      var n: nat :| !Contains(Iter(Step(t), n), Open);
      assert Iter(t, n + 1) == Iter(Step(t), n);
    }
  }

  /** A "-->" comes before the first "<!--". */
  ghost predicate CloseBeforeOpen(t: string) {
    Contains(t, Open) && Find(t, Close) != -1 && Find(t, Close) < Find(t, Open)
  }

  /**
   * An iteration on text whose first "-->" precedes its first "<!--" does not
   * shorten it, and leaves the same situation behind.
   */
  lemma CloseBeforeOpenPersists(t: string)
    requires CloseBeforeOpen(t)
    ensures |Step(t)| >= |t| && CloseBeforeOpen(Step(t))
  {
    var o, c := Find(t, Open), Find(t, Close);
    FindFirst(t, Open);
    FindFirst(t, Close);
    CloseEndsBeforeOpen(t, o, c);
    var u := Step(t);
    if c + 3 == o {
      assert u == t;
    } else {
      SpliceKeepsCloseFirst(t, o, c);
      FindIsFirst(u, Close, c);
      FindFirst(u, Open);
    }
  }

  /** A "-->" that starts before a "<!--" also ends before it: the two cannot overlap. */
  lemma CloseEndsBeforeOpen(t: string, o: int, c: int)
    requires OccursAt(t, Open, o) && OccursAt(t, Close, c) && c < o
    ensures c + 3 <= o
  {
    assert t[o] == t[o..o + 4][0] == '<';
    assert t[c + 1] == t[c..c + 3][1] == '-';
    assert t[c + 2] == t[c..c + 3][2] == '>';
  }

  /**
   * Cutting `t[o..c + 3]` out of text whose first "-->" is at `c` and first
   * "<!--" at `o`, when `c + 3 < o`: the "-->" stays first, nothing up to it
   * starts a "<!--", and the "<!--" moves to `2 * o - c - 3`.
   */
  lemma SpliceKeepsCloseFirst(t: string, o: int, c: int)
    requires IsFirst(t, Open, o) && IsFirst(t, Close, c) && c + 3 < o
    ensures var u := t[..o] + t[c + 3..];
      IsFirst(u, Close, c) && OccursAt(u, Open, 2 * o - c - 3) &&
      forall i :: 0 <= i <= c ==> !OccursAt(u, Open, i)
  {
    var u := t[..o] + t[c + 3..];
    assert u[..o] == t[..o];
    PrefixOccurs(t, Open, o);
    PrefixOccurs(u, Open, o);
    PrefixOccurs(t, Close, o);
    PrefixOccurs(u, Close, o);
    SuffixOccurs(t, Open, c + 3);
    assert u[o..] == t[c + 3..];
    SuffixOccurs(u, Open, o);
  }

  lemma {:induction false} CloseBeforeOpenForever(t: string, n: nat)
    requires CloseBeforeOpen(t)
    ensures CloseBeforeOpen(Iter(t, n))
    decreases n
  {
    if n > 0 {
      CloseBeforeOpenPersists(t);
      CloseBeforeOpenForever(Step(t), n - 1);
    }
  }

  /** If a "-->" precedes the first "<!--", the loop never stops. */
  lemma CloseBeforeOpenDiverges(t: string)
    requires CloseBeforeOpen(t)
    ensures !Halts(t)
  {
    forall n: nat
      ensures Contains(Iter(t, n), Open)
    {
      CloseBeforeOpenForever(t, n);
    }
  }

  /**
   * With no "-->" at all and the first "<!--" at index 2 or later, an
   * iteration keeps `text[2:]` after the prefix: the text does not shrink
   * and still contains "<!--".
   */
  lemma UnclosedDoesNotShrink(t: string)
    requires Contains(t, Open) && !Contains(t, Close) && Find(t, Open) >= 2
    ensures |Step(t)| >= |t| && Contains(Step(t), Open)
  {
    var o := Find(t, Open);
    FindFirst(t, Open);
    var u := Step(t);
    assert u == t[..o] + t[2..];
    SuffixOccurs(t, Open, 2);
    assert u[o..] == t[2..];
    SuffixOccurs(u, Open, o);
    assert OccursAt(u, Open, o + (o - 2));
    FindFirst(u, Open);
  }

  lemma {:induction false} FixedPointForever(t: string, n: nat)
    requires Contains(t, Open) && Step(t) == t
    ensures Iter(t, n) == t
    decreases n
  {
    if n > 0 {
      FixedPointForever(t, n - 1);
    }
  }

  /** An unterminated comment after two characters is a fixed point of the loop body: the loop never stops. */
  lemma UnterminatedCommentLoops()
    ensures Contains("ab<!--", Open) && Step("ab<!--") == "ab<!--"
    ensures !Halts("ab<!--")
  {
    var t := "ab<!--";
    assert t[0..4][0] == 'a' && t[1..5][0] == 'b' && t[2..6] == Open;
    assert FindFrom(t, Open, 0) == FindFrom(t, Open, 1) == FindFrom(t, Open, 2) == 2;
    assert t[0..3][0] == 'a' && t[1..4][0] == 'b' && t[2..5][0] == '<' && t[3..6][0] == '!';
    assert FindFrom(t, Close, 0) == FindFrom(t, Close, 1) == FindFrom(t, Close, 2) == FindFrom(t, Close, 3) == -1;
    assert Step(t) == t[..2] + t[2..] == t;
    forall n: nat
      ensures Contains(Iter(t, n), Open)
    {
      FixedPointForever(t, n);
    }
  }

  /**
   * The text read_pkgs hands to the pattern (src/main.py:71-74): the body as
   * fetched when hidden packages are wanted, the stripped body otherwise.
   */
  method IndexText(body: string, hidden: bool) returns (text: string)
    requires hidden || Halts(body)
    ensures hidden ==> text == body
    ensures !hidden ==> !Contains(text, Open)
    ensures !hidden ==> forall n: nat :: !Contains(Iter(body, n), Open) ==> text == Iter(body, n)
  {
    text := body;
    if !hidden {
      text := RemoveXmlComments(text);
    }
  }
}
