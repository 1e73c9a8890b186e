// Packages as src/main.py sees them: the list is the archive URLs that the
// pattern found on the index page, in page order (src/main.py:80). This
// module models the display name (src/main.py:88 and 104), the resolution of
// a user's identifier to one URL (src/main.py:96-103), the listing printed by
// list_pkgs (src/main.py:82-89) and the decisions snarf takes before it
// touches the filesystem (src/main.py:92-109).

module Packages {
  import opened PyStr

  const ZipExt := ".zip"
  const NoPackages := "No packages found."
  const StatusOk := 200

  /** `r` is the part of `p` after its last `c` (all of `p` when it has none). */
  ghost predicate AfterLast(p: string, c: char, r: string) {
    |r| <= |p| && r == p[|p| - |r|..] && c !in r && (|r| < |p| ==> p[|p| - |r| - 1] == c)
  }

  /** There is only one such part. */
  lemma AfterLastUnique(p: string, c: char, a: string, b: string)
    requires AfterLast(p, c, a) && AfterLast(p, c, b)
    ensures a == b
  {
  }

  /** `os.path.basename(p)` on a POSIX path: `p[p.rfind("/") + 1:]`. */
  function BaseName(p: string): (r: string)
    ensures AfterLast(p, '/', r)
    decreases |p|
  {
    if |p| == 0 then ""
    else if p[|p| - 1] == '/' then ""
    else
      var r := BaseName(p[..|p| - 1]) + [p[|p| - 1]];
      assert p[..|p| - 1][|p| - |r|..] + [p[|p| - 1]] == p[|p| - |r|..];
      r
  }

  /** `p.split("/")[-1]`. */
  function LastPiece(p: string): (r: string)
    ensures AfterLast(p, '/', r)
  {
    SplitLastAfterLast(p, '/');
    var parts := Split(p, "/");
    parts[|parts| - 1]
  }

  /**
   * The last piece of `p.split(c)` is what follows the last `c`: joining the
   * pieces gives `p` back, so `p` is the other pieces, a `c` and the last one,
   * and no piece holds a `c`.
   */
  lemma SplitLastAfterLast(p: string, c: char)
    ensures var parts := Split(p, [c]); AfterLast(p, c, parts[|parts| - 1])
  {
    var parts := Split(p, [c]);
    var last := parts[|parts| - 1];
    JoinSplit(p, [c]);
    SplitPiecesLackSep(p, [c]);
    OccursChar(last, c);
    if |parts| == 1 {
      assert Join(parts, [c]) == last;
    } else {
      JoinLast(parts, [c]);
      AfterSeparator(p, Join(parts[..|parts| - 1], [c]), c, last);
    }
  }

  /** Text that is `a`, a `c`, and then `r` without any `c`: `r` is what follows the last `c`. */
  lemma AfterSeparator(p: string, a: string, c: char, r: string)
    requires p == a + [c] + r && c !in r
    ensures AfterLast(p, c, r)
  {
    assert p[|p| - |r|..] == r;
    assert p[|p| - |r| - 1] == c;
  }

  /**
   * The display name list_pkgs shows: `os.path.basename(path).replace(".zip", "")`.
   * It holds no '/', so it names one directory, and it is the base name
   * itself when that has no ".zip".
   */
  function ListedName(path: string): (name: string)
    ensures '/' !in name
    ensures |name| <= |BaseName(path)|
    ensures !Contains(BaseName(path), ZipExt) ==> name == BaseName(path)
  {
    RemoveAllKeepsAbsent(BaseName(path), ZipExt, '/');
    RemoveAll(BaseName(path), ZipExt)
  }

  /**
   * snarf names the package directory with `path.split("/")[-1].replace(".zip", "")`:
   * the same name as the listing shows.
   */
  function SnarfName(path: string): (name: string)
    ensures name == ListedName(path)
  {
    AfterLastUnique(path, '/', LastPiece(path), BaseName(path));
    RemoveAll(LastPiece(path), ZipExt)
  }

  /** `replace` deletes in one pass, so the name can still hold ".zip". */
  lemma NameRemovalIsSinglePass()
    ensures ListedName("https://host/a..zipzip") == "a.zip"
  {
    var b := "a..zipzip";
    assert AfterLast("https://host/a..zipzip", '/', b);
    AfterLastUnique("https://host/a..zipzip", '/', b, BaseName("https://host/a..zipzip"));
    assert b[0..4][0] == 'a' && b[1..5][1] == '.' && b[2..6] == ZipExt;
    assert FindFrom(b, ZipExt, 0) == FindFrom(b, ZipExt, 1) == FindFrom(b, ZipExt, 2) == 2;
    var rest := b[6..];
    assert rest == "zip";
    assert FindFrom(rest, ZipExt, 0) == -1;
  }

  /** The result of resolving an identifier. */
  datatype Selection = Selected(path: string) | Invalid

  /** The archive suffix a non-numeric identifier must match: f"/{pkg}.zip". */
  function NameSuffix(id: string): string {
    "/" + id + ZipExt
  }

  /** `i` is the first position whose URL ends with `suffix`. */
  predicate IsFirstMatch(pkgs: seq<string>, suffix: string, i: int) {
    0 <= i < |pkgs| && EndsWith(pkgs[i], suffix) && forall j :: 0 <= j < i ==> !EndsWith(pkgs[j], suffix)
  }

  /** `[p for p in pkgs if p.endswith(suffix)]`: the matching URLs, in list order. */
  function Matching(pkgs: seq<string>, suffix: string): (ms: seq<string>)
    ensures |ms| <= |pkgs|
    ensures forall j :: 0 <= j < |ms| ==> ms[j] in pkgs && EndsWith(ms[j], suffix)
    ensures |ms| == 0 <==> forall i :: 0 <= i < |pkgs| ==> !EndsWith(pkgs[i], suffix)
    ensures |ms| > 0 ==> exists i :: IsFirstMatch(pkgs, suffix, i) && ms[0] == pkgs[i]
    decreases |pkgs|
  {
    if |pkgs| == 0 then []
    else
      var rest := Matching(pkgs[1..], suffix);
      if EndsWith(pkgs[0], suffix) then
        assert IsFirstMatch(pkgs, suffix, 0);
        [pkgs[0]] + rest
      else
        assert forall i :: 1 <= i < |pkgs| ==> pkgs[i] == pkgs[1..][i - 1];
        if |rest| > 0 then
          var i :| IsFirstMatch(pkgs[1..], suffix, i) && rest[0] == pkgs[1..][i];
          assert IsFirstMatch(pkgs, suffix, i + 1);
          rest
        else rest
  }

  /**
   * The identifier lookup of snarf. An all-digit identifier is a zero-based
   * index (`int(pkg)`), invalid past the end of the list. Any other
   * identifier, the empty one included, selects the first URL in list order
   * that ends with "/<id>.zip", and is invalid when none does.
   */
  function Resolve(pkgs: seq<string>, id: string): (r: Selection)
    ensures r.Selected? ==> r.path in pkgs
    ensures IsDigits(id) ==> (r.Selected? <==> DecimalValue(id) < |pkgs|)
    ensures IsDigits(id) && r.Selected? ==> r.path == pkgs[DecimalValue(id)]
    ensures !IsDigits(id) ==>
      (r.Selected? <==> exists i :: 0 <= i < |pkgs| && EndsWith(pkgs[i], NameSuffix(id)))
    ensures !IsDigits(id) && r.Selected? ==>
      exists i :: IsFirstMatch(pkgs, NameSuffix(id), i) && r.path == pkgs[i]
  {
    if IsDigits(id) then
      var n := DecimalValue(id);
      if n < |pkgs| then Selected(pkgs[n]) else Invalid
    else
      var ms := Matching(pkgs, NameSuffix(id));
      if |ms| == 0 then Invalid else Selected(ms[0])
  }

  /** The index that the listing prints in front of a package selects that package. */
  lemma ShownIndexSelects(pkgs: seq<string>, i: nat)
    ensures i < |pkgs| ==> Resolve(pkgs, ShowNat(i)) == Selected(pkgs[i])
    ensures i >= |pkgs| ==> Resolve(pkgs, ShowNat(i)) == Invalid
  {
    DecimalValueOfShowNat(i);
  }

  /** Of two URLs with the same archive name, the later one is never selected by that name. */
  lemma FirstDuplicateWins(pkgs: seq<string>, id: string, i: int, j: int)
    requires !IsDigits(id) && 0 <= i < j < |pkgs|
    requires EndsWith(pkgs[i], NameSuffix(id)) && EndsWith(pkgs[j], NameSuffix(id))
    ensures exists f :: 0 <= f <= i && IsFirstMatch(pkgs, NameSuffix(id), f) && Resolve(pkgs, id) == Selected(pkgs[f])
  {
    var r := Resolve(pkgs, id);
    var f :| IsFirstMatch(pkgs, NameSuffix(id), f) && r.path == pkgs[f];
    assert f <= i;
  }

  /**
   * list_pkgs, as the lines it prints: the one fixed message for an empty
   * list, otherwise line `i` is "{i}: {name}" for the i-th URL, in list order.
   */
  method ListPackages(pkgs: seq<string>) returns (lines: seq<string>)
    ensures |pkgs| == 0 ==> lines == [NoPackages]
    ensures |pkgs| > 0 ==> |lines| == |pkgs|
    ensures |pkgs| > 0 ==> forall i :: 0 <= i < |pkgs| ==> lines[i] == ShowNat(i) + ": " + ListedName(pkgs[i])
  {
    if |pkgs| == 0 {
      lines := [NoPackages];
      return;
    }
    lines := [];
    for i := 0 to |pkgs|
      invariant |lines| == i
      invariant forall j :: 0 <= j < i ==> lines[j] == ShowNat(j) + ": " + ListedName(pkgs[j])
    {
      var name := ListedName(pkgs[i]);
      lines := lines + [ShowNat(i) + ": " + name];
    }
  }

  /**
   * What snarf does up to the download: an identifier that resolves to
   * nothing prints "Invalid package." and requests nothing; otherwise the
   * resolved URL is requested, a status other than 200 prints "Request
   * failed.", and a 200 leaves the archive fetched and the package's
   * directory name chosen. `status` is the HTTP status of that request.
   */
  datatype SnarfOutcome = InvalidPackage | RequestFailed(url: string) | Fetched(url: string, name: string)

  function Snarf(pkgs: seq<string>, id: string, status: int): (r: SnarfOutcome)
    ensures r.InvalidPackage? <==> Resolve(pkgs, id).Invalid?
    ensures !r.InvalidPackage? ==> r.url == Resolve(pkgs, id).path && r.url in pkgs
    ensures r.Fetched? <==> Resolve(pkgs, id).Selected? && status == StatusOk
    ensures r.Fetched? ==> r.name == ListedName(r.url)
  {
    match Resolve(pkgs, id)
    case Invalid => InvalidPackage
    case Selected(path) =>
      if status != StatusOk then RequestFailed(path)
      else Fetched(path, SnarfName(path))
  }

  /** Snarfing by the index `ls` printed fetches that package into the directory named as listed. */
  lemma SnarfShownIndex(pkgs: seq<string>, i: nat, status: int)
    requires i < |pkgs|
    ensures Snarf(pkgs, ShowNat(i), status) ==
      if status == StatusOk then Fetched(pkgs[i], ListedName(pkgs[i])) else RequestFailed(pkgs[i])
  {
    ShownIndexSelects(pkgs, i);
  }
}
