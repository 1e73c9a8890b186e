# CLI Snarf: a Dafny model of its core

CLI Snarf (`src/main.py`) is a command-line client for a Web-CAT "snarf"
site. It downloads the site's package index (`snarf.xml`) and, unless hidden
packages are wanted, strips the XML comments from it. A regular expression
built from the configured root URL then picks the package archive URLs out
of the page. The tool lists those packages with their indices and names, and
resolves one identifier, an index or a name, to a single archive. It then
fetches that archive and unpacks it into a directory named after the package.
Its settings (root URL, user name, password) are kept in a JSON file and
completed by prompting for whatever is missing.

This project models the logic between those I/O steps and proves what it
does. There are five modules, one `.dfy` file each:

- `PyStr` (`pystr.dfy`): the Python `str` operations the tool relies on, each
  with Python's own semantics written out and proved. These are `in`, `find`
  (-1 when absent), `split` on a non-empty separator (with `sep.join`,
  which the tool does not call, to state its round trip), `replace(pat, "")` (a single left-to-right pass), `strip(c)`, `endswith`,
  ASCII `isdigit`, `int(...)` and `str(n)`.
- `Comments` (`comments.dfy`): the loop of `remove_xml_comments`, exactly as
  written, and the choice of index text made in `read_pkgs`.
- `UrlPattern` (`pattern.dfy`): the pattern text built by `get_regex`, including
  the `IndexError` raised on a root URL without `://`.
- `Packages` (`packages.dfy`): the following parts of `list_pkgs` and `snarf`:
  - the package name shown by `list_pkgs` and the one chosen by `snarf`;
  - the resolution of an identifier to a URL;
  - the lines `list_pkgs` prints;
  - what `snarf` decides before it touches the filesystem.
- `Config` (`config.dfy`): how `read_config` fills missing keys into the loaded
  settings.

`remove_xml_comments` has no guard against an unterminated comment. Each
iteration searches for the first `-->` from the start of the text, not from
the `<!--`. A missing `-->` makes
`find` return -1, so the splice keeps `text[2:]`. In either case an iteration
need not shorten the text, and the loop can run forever. The model keeps this
behaviour. `Comments.RemoveXmlComments` requires that the loop, run on its
input, stops after finitely many iterations. That precondition is the loop's
exact termination domain. Several lemmas name inputs outside it:
- `CloseBeforeOpenDiverges` covers a `-->` before the first `<!--`;
- `UnterminatedCommentLoops` covers the text `ab<!--`.

## Model

| member | source | states |
|---|---|---|
| PyStr.Find | src/main.py:34-35 | `find` yields -1 or an index at which the whole pattern fits in the text |
| PyStr.Contains | src/main.py:33 | `pat in s` is defined as `find` not returning -1 (see `ContainsOccurs`) |
| PyStr.ContainsOccurs | src/main.py:33 | `pat in s` holds exactly when `pat` occurs at some index of `s` |
| PyStr.FindFirst | src/main.py:34-35 | `find` yields the first index at which the pattern occurs, and -1 exactly when it occurs nowhere |
| PyStr.FindIsFirst | src/main.py:34-35 | the first occurrence of a pattern is where `find` points |
| PyStr.Split | src/main.py:64 | `split` yields at least one piece, exactly one when the separator is absent, and the first piece is the text before the first separator |
| PyStr.SplitPiecesLackSep | src/main.py:64 | no piece of `s.split(sep)` contains `sep` |
| PyStr.JoinSplit | src/main.py:64 | `sep.join(s.split(sep)) == s`: splitting loses nothing |
| PyStr.JoinLast | src/main.py:104 | joining two or more pieces puts the separator right before the last piece |
| PyStr.RemoveAll | src/main.py:88 | `replace(pat, "")` never lengthens the text, leaves it unchanged when `pat` is absent, and removes at least one `pat` when it is present |
| PyStr.RemoveAllIsConcatOfSplit | src/main.py:88 | `s.replace(pat, "")` is `"".join(s.split(pat))` |
| PyStr.RemoveAllKeepsAbsent | src/main.py:88 | `replace(pat, "")` brings in no character that the text did not hold |
| PyStr.EndsWith | src/main.py:100 | `s.endswith(suffix)`: the last `len(suffix)` characters of `s` are `suffix` (see `EndsWithConcat`) |
| PyStr.EndsWithConcat | src/main.py:100 | `s.endswith(suffix)` holds exactly when `s` is some text followed by `suffix` |
| PyStr.Strip | src/main.py:48 | `strip(c)` yields an infix of the text with only `c` around it, and the result neither starts nor ends with `c` |
| PyStr.StripIdempotent | src/main.py:48 | stripping an already stripped text changes nothing |
| PyStr.IsDigits | src/main.py:97 | `s.isdigit()` for ASCII: `s` is non-empty and every character is a digit `0`-`9` (no ensures; the Unicode digits are under Left out) |
| PyStr.DecimalValue | src/main.py:98 | `int(s)` on a digit string reads a positive number when `s` does not start with `0`, and one of at least 10 when it has two or more digits |
| PyStr.ShowNat | src/main.py:89 | `str(i)` is a non-empty string of ASCII digits without a leading zero: it starts with `0` only for 0, and a string of two or more digits never starts with `0` |
| PyStr.DecimalValueOfShowNat | src/main.py:97-98 | `int(str(i)) == i` |
| PyStr.ShowNatOfDecimalValue | src/main.py:97-98 | `str(int(s)) == s` for every digit string without a leading zero, and for `0` |
| Comments.Step | src/main.py:34-36 | one loop iteration shortens the text whenever the first `-->` does not start before the first `<!--` |
| Comments.Iter | src/main.py:33-36 | the text after at most `n` iterations of the loop, which stops once no `<!--` is left (no ensures; see `IterSucc`, `IterStable`) |
| Comments.IterSucc | src/main.py:33-36 | while the text still holds a `<!--`, one more iteration applies one more loop body |
| Comments.IterStable | src/main.py:33-36 | once the loop has reached a text without `<!--`, further iterations leave it unchanged |
| Comments.RemoveXmlComments | src/main.py:32-38 | on input on which the loop stops, the result holds no `<!--` and is the text the loop reaches |
| Comments.RemoveXmlCommentsTwice | src/main.py:32-38 | stripping the stripped text again returns it unchanged |
| Comments.StepRemovesFirstComment | src/main.py:34-36 | when the first `-->` is at or after the first `<!--`, one iteration removes exactly that span, keeps a prefix free of `<!--`, and shortens the text |
| Comments.WellNestedHalts | src/main.py:33-36 | the loop stops on text whose every iteration has its first `-->` at or after its first `<!--` |
| Comments.CloseEndsBeforeOpen | src/main.py:34-35 | a `-->` that starts before a `<!--` also ends before it |
| Comments.CloseBeforeOpenPersists | src/main.py:34-36 | if a `-->` precedes the first `<!--`, an iteration does not shorten the text and leaves the same situation |
| Comments.CloseBeforeOpenDiverges | src/main.py:33-36 | if a `-->` precedes the first `<!--`, the loop never stops |
| Comments.UnclosedDoesNotShrink | src/main.py:35-36 | with no `-->` and the first `<!--` at index 2 or later, an iteration does not shorten the text and leaves a `<!--` in it |
| Comments.UnterminatedCommentLoops | src/main.py:33-36 | `ab<!--` is a fixed point of one iteration, and the loop never stops on it |
| Comments.IndexText | src/main.py:71-74 | the text given to the pattern is the body as fetched when hidden packages are wanted, and the stripped body otherwise |
| UrlPattern.EscapeDots | src/main.py:64 | after `replace(".", "\\.")`, every dot is preceded by a backslash |
| UrlPattern.UnescapeEscapeDots | src/main.py:64 | escaping the dots loses nothing: reading `\.` back as `.` restores the root URL |
| UrlPattern.FindSepEscaped | src/main.py:64 | escaping dots neither creates nor destroys `://`: the first one moves by the escapes before it |
| UrlPattern.SplitSepEscaped | src/main.py:64 | splitting the escaped root on `://` yields the escaped pieces of the root, as many as before |
| UrlPattern.HostSegment | src/main.py:64 | the second piece of `split("://")` runs from the first `://` to the next `://` or to the end |
| UrlPattern.GetRegex | src/main.py:62-66 | the pattern is `https{0,1}://`, then the root's segment after its first `://` (up to a second `://`) with dots escaped, then `/.*\.zip`; a root without `://` raises `IndexError` |
| Packages.AfterLastUnique | src/main.py:88 | there is only one "text after the last `/`" of a path |
| Packages.BaseName | src/main.py:88 | `os.path.basename(p)` is what follows the last `/` of `p` |
| Packages.LastPiece | src/main.py:104 | `p.split("/")[-1]` is what follows the last `/` of `p` |
| Packages.SplitLastAfterLast | src/main.py:104 | the last piece of `p.split(c)` is what follows the last `c`, because joining the pieces gives `p` back and no piece holds a `c` |
| Packages.AfterSeparator | src/main.py:104 | in a text made of something, a `c` and then text without `c`, that text is what follows the last `c` |
| Packages.SnarfName | src/main.py:104 | the directory name snarf uses is the name list_pkgs shows for the same URL |
| Packages.ListedName | src/main.py:88 | the name list_pkgs shows holds no `/`, is no longer than the base name, and equals the base name when that has no `.zip` |
| Packages.NameRemovalIsSinglePass | src/main.py:88 | `replace(".zip", "")` deletes in one pass: `a..zipzip` is listed as `a.zip` |
| Packages.Matching | src/main.py:100 | the comprehension holds only URLs of the list that end with the suffix, is empty exactly when none does, and otherwise starts with the first one that does |
| Packages.NameSuffix | src/main.py:100 | the f-string `f"/{pkg}.zip"` (no ensures; used by `Resolve` and `FirstDuplicateWins`) |
| Packages.Resolve | src/main.py:96-103 | an all-digit identifier selects `pkgs[int(id)]` and is invalid past the end; any other identifier selects the first URL ending in `/<id>.zip` and is invalid when none does; a selection is always one of the URLs |
| Packages.ShownIndexSelects | src/main.py:97-98 | the index printed before a package selects that package, and an index past the list is invalid |
| Packages.FirstDuplicateWins | src/main.py:100 | of two URLs with the same archive name, the later one is never selected by that name: the selection is the first match, at or before the earlier one |
| Packages.ListPackages | src/main.py:82-89 | an empty list prints only "No packages found."; otherwise line `i` is `"{i}: {name}"` for the i-th URL, in list order |
| Packages.Snarf | src/main.py:96-109 | an unresolvable identifier is "Invalid package." and requests nothing; otherwise the resolved URL is requested, a status other than 200 is "Request failed.", and a 200 fetches it under the listed name |
| Packages.SnarfShownIndex | src/main.py:96-109 | snarfing by a printed index fetches that package into the directory named as listed, or fails on a non-200 status |
| Config.Fill | src/main.py:47-52 | one `if key not in data: data[key] = answer` step (no ensures; see `FillKeeps`) |
| Config.FillKeeps | src/main.py:47-52 | filling a key adds that key only, keeps every loaded value, and stores the answer only when the key was missing |
| Config.Completed | src/main.py:47-54 | the settings `read_config` returns: the three keys filled in order, the root answer stripped of `/` (no ensures; see `CompletedFillsMissingKeys`) |
| Config.ReadConfig | src/main.py:47-54 | the settings returned are the loaded ones completed, key by key, with the root URL stripped of `/`, the user name and the password |
| Config.CompletedFillsMissingKeys | src/main.py:47-54 | afterwards `snarfpath`, `username` and `password` are present and no other key is added; loaded values are kept; each missing key holds its answer, the root URL stripped of `/` |
| Config.CompleteConfigUnchanged | src/main.py:47-52 | settings that already hold the three keys come back unchanged |
| Config.ReadConfigIdempotent | src/main.py:47-54 | completing the completed settings again changes nothing |
| Config.EnteredRootIsStripped | src/main.py:48 | `Strip`'s clean-ends ensures and `StripIdempotent` applied to `/`: a root URL typed in neither starts nor ends with `/`, and stripping it again changes nothing |

## Left out

- HTTP: the index page and the archive are fetched with `requests`. The page text is an input of `Comments.IndexText`. The archive request's status code is an input of `Packages.Snarf`.
- Regular-expression matching: `re.compile` and `findall`. The model builds the pattern's source text only. The list of archive URLs that `findall` returns is an input of `Packages.Resolve`, `Packages.ListPackages` and `Packages.Snarf`. Errors that `re.compile` could raise on metacharacters in the root URL are not modelled.
- The filesystem:
  - whether the configuration file exists;
  - the temporary archive file;
  - the existing-directory check with its overwrite prompt;
  - zip extraction and the removal of the temporary file.
  `Packages.Snarf` stops at "the archive is fetched and the directory name is chosen".
- JSON reading and writing (`json.load`, `write_config`). The loaded settings are an input of `Config.ReadConfig`. Values are modelled as strings.
- The prompts (`input`, `getpass`): their answers are inputs. The interactive prompt for a package identifier is not modelled; the identifier is always an input.
- Argument parsing and the `vim` system call.
- The unused `url_pat` and `l` in `read_pkgs`: they compute values that nothing reads.
- PyStr.IsDigits: models ASCII digits only. Python's `isdigit` also accepts other Unicode digits, which `int` may then reject.
- Comments.RemoveXmlComments: requires that the loop stops on its input, because the code loops forever otherwise. No result is defined for the inputs on which it diverges.
- Packages.Resolve: treats every all-digit identifier as an index, however long. CPython releases since September 2022 (3.11 and later, and the 3.10.7, 3.9.14, 3.8.14 and 3.7.14 security releases onward) raise `ValueError` from `int(pkg)` on a string of more than 4300 digits; `except IndexError` does not catch it, so `snarf` stops there with a traceback. The model reads such an identifier as the index `int` would give without the limit: `Invalid` when that value is past the end of the list, and a selection otherwise (4300 zeros followed by `1` selects `pkgs[1]` in a list of two or more URLs).
- Packages.BaseName: models `os.path.basename` as on POSIX, splitting only at `/`. On Windows it also splits at `\`, and then the names of `Packages.SnarfName` and `Packages.ListedName` can differ for a URL whose last segment holds a `\`.
- setup.py: it is packaging metadata.
