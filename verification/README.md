# VScode-offline: a Dafny model of the version search in `vsix_extraction.py`

The script finds, for each installed VS Code extension, the newest published
version whose manifest declares a minimum host version (`engines.vscode`) that a
fixed target host version (`code_version = '1.77.3'`) satisfies, and then
downloads that version's `.vsix` package with curl. This project models the part
of the script that decides things, and proves what it promises:

- `parse_version_string`: splits an optional leading comparison operator (`<`,
  `<=`, `>`, `>=`, `==`) off a version string and maps it to -1, 0 or 1
  (module `VersionParse`). The regex `([<>=]+)?(.+)` is modelled exactly. The
  greedy operator group takes the leading run of `<`, `>` and `=`. It gives back
  characters so that the body keeps at least one. It is absent when the run is
  empty.
- `compare_versions`: splits both bodies on `.` and turns all-digit tokens into
  integers. It pads the shorter body with integer zeros and compares position by
  position. Integers compare numerically, an integer sorts below a string, and
  two strings compare by code point. If every position ties, it returns the
  difference of the operator codes (module `VersionCompare`). The method
  `CompareVersions` parses both sides and runs the source's loop, with its early
  returns, as the method `CompareComponents`. It then falls back on the codes. It
  is proved equal to the function `Compare`, and the properties are lemmas about
  `Compare`.
- `extract_compatible_vscode_version`: a linear scan with `break`
  (module `CompatSearch`). The download, the unzip and the JSON read become an
  oracle `version -> Option<Option<string>>`. The outer `None` means the download
  failed or the manifest could not be read. `Some(None)` means the manifest has
  no `engines.vscode`. The target host version is a parameter. The loop's
  reference definition is `FirstWhere`, the first element that passes a test,
  with the acceptance test plugged in.
- `get_package_url`, `vsix_url`, `vsix_curl`: the string templates, with
  the `ValueError` raised for a name without exactly one `.` (module `Gallery`).
  A decoder shows that the URL can be read back to the extension name and the
  version.
- `check_compat` and the main block's name parsing and download loop (module
  `Driver`). The per-name search (`get_compatible_version`) is an oracle. It
  returns what `Search` returns, its `ValueError` included, or fails because the
  `vsce` tooling or its JSON failed (`CompatError.ToolFailure`). The `code --list-extensions --show-versions` listing is an input. The
  download loop yields the curl command or warning for each record; it does not
  run or print them.
- Python's `str.split`, `sep.join`, `in`, `<`, `isdigit` and `int` on strings
  are modelled over `seq<char>` (module `Strings`). `Option` and `Result` are in
  `Wrappers`.

Behaviour of the code worth noting:

- The operator guard is a substring test, but it does not misparse a version
  that has an operator character inside it. `re.match` is anchored at the
  start, so a string that does not start with an operator character parses to
  code 0 and the whole string, exactly as if it had no operator
  (`UnprefixedParsesToItself`, `MidStringOperatorIgnored`). The substring guard
  only matters when the string starts with a run that is not a table key but has
  a key somewhere in it. Then that run is cut off with code 0 (`ArrowRunParsesToZero`).
- The docstring of `compare_versions` promises -1, 0 or 1. The tie-break
  `v1_comp - v2_comp` can give 2 or -2 (`ExampleResultTwo`). Only `>= 0` is ever
  tested, so the search is not affected.
- A record's version and URL are not always both present or both absent.
  The code tests `if compatible_version:` for truthiness, so a found empty
  version string gets a `null` URL (`BuildRecord`).
- `check_compat` does not remove duplicate names: the search runs, and a record
  is built, once per input name (`OneRecordPerName`).

## Model

| member | source | states |
|---|---|---|
| `VersionParse.OperatorRunLength` | vsix_extraction.py:38 | the length of the longest leading run of `<`, `>`, `=`: every character before it is one, the one at it is not |
| `VersionParse.MatchOperatorPrefix` | vsix_extraction.py:38 | the regex groups: the operator group (if present) and the body rebuild the string; the group is a non-empty run of operator characters; the body is non-empty and starts with a non-operator character unless it is the last character left |
| `VersionParse.OperatorCode` | vsix_extraction.py:18-24 | `dict.get(op, 0)`: the table's code for a key, 0 for an absent group or a run that is not a key; always in -1..1 |
| `VersionParse.ContainsOperator` | vsix_extraction.py:37 | the guard `any(op in version_str for op in ...)`: some table operator occurs as a substring; it holds only of a non-empty string |
| `VersionParse.ParseVersionString` | vsix_extraction.py:26-40 | the code is in -1..1; the body is what is left after a run of operator characters is taken off the front, and is non-empty for a non-empty input |
| `VersionParse.UnprefixedParsesToItself` | vsix_extraction.py:37-40 | a string not starting with `<`, `>` or `=` (with or without an operator inside) parses to code 0 and itself |
| `VersionParse.NoOperatorParsesToItself` | vsix_extraction.py:37-40 | a string containing none of `<`, `<=`, `>`, `>=`, `==` parses to code 0 and itself |
| `VersionParse.SplitsAtOperatorRun` | vsix_extraction.py:38 | a run of operator characters followed by a body that starts with another character matches as exactly that run and that body |
| `VersionParse.OperatorPrefixParses` | vsix_extraction.py:18-24 | a table operator followed by such a body parses to the table's code and the body |
| `VersionParse.UnknownOperatorRunParses` | vsix_extraction.py:37-39 | a leading run that is not a table key, in a string containing some key, gives code 0 and the body after the run |
| `VersionParse.ArrowRunParsesToZero` | vsix_extraction.py:37-39 | `=>1.0` parses to code 0 and `1.0` |
| `VersionParse.MidStringOperatorIgnored` | vsix_extraction.py:37-39 | `1<2` parses to code 0 and `1<2` |
| `VersionParse.OperatorOnlyParses` | vsix_extraction.py:38-39 | a string of operator characters only that holds a table operator keeps its last character as the body, the rest being the operator group |
| `VersionParse.OperatorOnlyString` | vsix_extraction.py:38-39 | `<=` parses to code -1 and body `=`: the regex leaves one character for the body |
| `Strings.Split` | vsix_extraction.py:187-188 | `str.split` yields at least one piece, no piece holds the separator, and the first piece is a prefix of the input |
| `Strings.SplitNoSeparator` | vsix_extraction.py:187-188 | a string without the separator splits into itself alone |
| `Strings.JoinSplit` | vsix_extraction.py:187-188 | joining the pieces of a split with the separator gives the input back |
| `Strings.SplitJoin` | vsix_extraction.py:187-188 | splitting a join of separator-free pieces gives the pieces back |
| `Strings.SplitConcat` | vsix_extraction.py:187-188 | splitting `a + sep + b` is splitting `a` followed by splitting `b` |
| `Strings.SplitCount` | vsix_extraction.py:100 | a split has one more piece than the input has separators |
| `Strings.Less` | vsix_extraction.py:203-204 | Python's string `<` by code point: never true of equal strings, and a proper prefix is below the longer string |
| `Strings.IsDigits` | vsix_extraction.py:187 | `isdigit`: a digit token is non-empty and holds no `.` and no sign |
| `Strings.DecimalValue` | vsix_extraction.py:187 | `int` of a string of k digits is a natural number below 10^k |
| `Strings.LessTotal` | vsix_extraction.py:203-204 | Python string `<` is asymmetric and orders any two distinct strings |
| `Strings.DecimalValueLeadingZero` | vsix_extraction.py:187 | `int` ignores a leading zero |
| `VersionCompare.ToPart` | vsix_extraction.py:187 | a token becomes an integer exactly when it is all digits, and otherwise stays the same string |
| `VersionCompare.Parts` | vsix_extraction.py:187-188 | one component per `.`-separated token, so one more than the number of dots, each being that token converted |
| `VersionCompare.ComparePart` | vsix_extraction.py:194-204 | one position: -1..1, 0 exactly on equal components, integers by value, an integer below any string, strings by string order |
| `VersionCompare.ComparePadded` | vsix_extraction.py:190-204 | the position-by-position comparison with zero padding lies in -1..1 |
| `VersionCompare.Compare` | vsix_extraction.py:184-206 | the value of `compare_versions` lies in -2..2 |
| `VersionCompare.CompareVersions` | vsix_extraction.py:184-206 | parsing, the component loop and the operator-code fallback compute `Compare` |
| `VersionCompare.CompareComponents` | vsix_extraction.py:187-204 | the loop with its early returns computes `ComparePadded`, 0 when it runs to the end |
| `VersionCompare.FirstDifference` | vsix_extraction.py:190-204 | the result is the comparison of the components at the first position where the padded bodies differ |
| `VersionCompare.TieIffPaddedEqual` | vsix_extraction.py:190-198 | the bodies tie exactly when they agree at every position once padded with zeros |
| `VersionCompare.PaddedEqualCompareAlike` | vsix_extraction.py:191-192 | bodies equal up to zero padding compare alike against any third |
| `VersionCompare.TrailingZeroNeutral` | vsix_extraction.py:191-192 | appending a zero component to a body does not change any comparison |
| `VersionCompare.ComparePartAntisymmetric` | vsix_extraction.py:194-204 | swapping two components negates their comparison |
| `VersionCompare.ComparePaddedAntisymmetric` | vsix_extraction.py:190-204 | swapping two bodies negates their comparison |
| `VersionCompare.CompareReflexive` | vsix_extraction.py:184-206 | every version string compares 0 with itself |
| `VersionCompare.CompareAntisymmetric` | vsix_extraction.py:184-206 | `compare_versions(b, a) == -compare_versions(a, b)` exactly, the operator-code tie-break included |
| `VersionCompare.CompareCases` | vsix_extraction.py:190-206 | if the padded bodies agree everywhere the result is the code difference; otherwise it is the nonzero (±1) comparison at the first differing position |
| `VersionCompare.TrailingZeroComponentNeutral` | vsix_extraction.py:187-192 | for a version that does not start with an operator character, appending `.0` changes no comparison on either side |
| `VersionCompare.CompareAtFirstDifference` | vsix_extraction.py:184-204 | for versions without a leading operator, the first differing position decides the result |
| `VersionCompare.CompareSameParts` | vsix_extraction.py:184-206 | versions without a leading operator whose components agree compare 0 |
| `VersionCompare.PartsWithTrailingZero` | vsix_extraction.py:187 | appending `.0` to a body appends the integer component 0 |
| `VersionCompare.PartsOfThree` | vsix_extraction.py:187-188 | a body `x.y.z` has the three components of its tokens |
| `VersionCompare.ExampleMissingComponentIsZero` | vsix_extraction.py:191-192 | `1.2` equals `1.2.0` |
| `VersionCompare.ExampleNumericComponents` | vsix_extraction.py:187-198 | `1.2.3` is below `1.2.10` |
| `VersionCompare.ExampleLeadingZero` | vsix_extraction.py:187 | `1.01` equals `1.1` |
| `VersionCompare.ExampleOperatorBreaksTie` | vsix_extraction.py:206 | `>=1.0.0` against `1.0.0` gives 1 |
| `VersionCompare.ExampleResultTwo` | vsix_extraction.py:206 | `>1` against `<1` gives 2, outside the docstring's -1/0/1 |
| `VersionCompare.ExampleNumberBelowWord` | vsix_extraction.py:199-200 | `1.2` is below `1.a`: an integer sorts below a word |
| `VersionCompare.ExamplePaddingBelowWord` | vsix_extraction.py:191-200 | `1` is below `1.a`: the padding zero sorts below a word |
| `VersionCompare.ExampleWordsCompareAsStrings` | vsix_extraction.py:203-204 | `1.a` is below `1.b`: words compare as strings |
| `Gallery.PackageUrl` | vsix_extraction.py:89-101 | `get_package_url` succeeds exactly when the name holds one `.`, and otherwise raises for that name |
| `Gallery.VsixUrl` | vsix_extraction.py:143-155 | `vsix_url` succeeds exactly for a name with one `.`, and otherwise raises for that name |
| `Gallery.PackageUrlIsVsixUrl` | vsix_extraction.py:143-155 | `vsix_url` builds the same URL as `get_package_url` and fails alike; it holds by construction, because the templates at lines 101 and 155 are the same string and `VsixUrl` is defined through `PackageUrl` |
| `Gallery.GalleryUrlRoundTrip` | vsix_extraction.py:101 | the asset URL decodes back to `publisher.package` and the version when the publisher has no `.` and the package no `/` |
| `Gallery.PackageUrlRoundTrip` | vsix_extraction.py:100-101 | the URL of any well-formed name whose package part has no `/` decodes back to that name and version |
| `Gallery.VsixCurlWords` | vsix_extraction.py:157-168 | the curl command is the words `curl`, the URL, `-o` and `{dir}/{ext}.vsix` when none holds a space |
| `Gallery.VsixCurl` | vsix_extraction.py:157-168 | the command starts with `curl ` and the URL, ends with `{extension}.vsix`, and has the length of the template filled in |
| `CompatSearch.AfterLastCaret` | vsix_extraction.py:82 | `split("^")[-1]` is a caret-free suffix of the field, and either the whole field or preceded by a caret |
| `CompatSearch.AfterLastCaretNoCaret` | vsix_extraction.py:82 | a field without a caret is used unchanged |
| `CompatSearch.AfterLastCaretOfCaret` | vsix_extraction.py:82 | only the text after the last caret counts |
| `CompatSearch.AfterLeadingCaret` | vsix_extraction.py:82 | `^1.70.0` is read as `1.70.0` |
| `CompatSearch.Accepts` | vsix_extraction.py:79-83 | a version is accepted only if its manifest was read and declares `engines.vscode`; for a caret-free field, exactly when the host compares `>= 0` against it |
| `CompatSearch.FirstWhere` | vsix_extraction.py:73-85 | the scan's result, when there is one, is an element of the list that passes the test |
| `CompatSearch.FirstCompatible` | vsix_extraction.py:72-87 | a found version is one of the versions and is accepted |
| `CompatSearch.Search` | vsix_extraction.py:61-87 | the search raises exactly when there is a version to try and the name is malformed, with that name; a found version is one of the versions and is accepted |
| `CompatSearch.FirstWhereIsFirst` | vsix_extraction.py:73-85 | a scan that stops at the first element passing the test returns the element at the first passing index |
| `CompatSearch.FirstWhereNone` | vsix_extraction.py:73-87 | the scan finds nothing exactly when no element passes |
| `CompatSearch.FirstWhereFound` | vsix_extraction.py:73-87 | what the scan finds is an element that passes, with every earlier element failing |
| `CompatSearch.ExtractCompatibleVersion` | vsix_extraction.py:61-87 | the scan returns the first accepted version, `None` if there is none, and raises for a malformed name as soon as there is a version to try |
| `CompatSearch.FirstCompatibleIsFirst` | vsix_extraction.py:72-85 | if index k is the first accepted version, the search returns it |
| `CompatSearch.NoneWhenNoneAccepted` | vsix_extraction.py:72-87 | the search returns `None` exactly when no version is accepted |
| `CompatSearch.FoundIsFirstAccepted` | vsix_extraction.py:72-87 | a found version is in the list, accepted, and every earlier version was rejected |
| `CompatSearch.LaterVersionsNotExamined` | vsix_extraction.py:83-85 | manifests of versions after the match do not affect the result |
| `CompatSearch.FailedDownloadSkipped` | vsix_extraction.py:76-79 | a failed download or unreadable manifest moves on to the next version |
| `CompatSearch.FoundImpliesWellFormed` | vsix_extraction.py:73-75 | a successful search that found a version had a well-formed name |
| `CompatSearch.HostBelowNewerRequirement` | vsix_extraction.py:16 | host `1.77.3` compares -1 against `1.80.0` |
| `CompatSearch.HostAboveOlderRequirement` | vsix_extraction.py:16 | host `1.77.3` compares 1 against `1.70.0` |
| `CompatSearch.HostAgainst` | vsix_extraction.py:16 | host `1.77.3` satisfies `1.m.0` for a two-digit minor m below 77 and not for one above |
| `CompatSearch.ExampleSearch` | vsix_extraction.py:72-87 | versions `2.0.0`, `1.5.0`, `1.0.0`, the first unavailable or asking `^1.80.0`, the second `^1.70.0`: the result is `1.5.0`, whatever `1.0.0` says |
| `Driver.BuildRecord` | vsix_extraction.py:223-233 | a record keeps the name and the found version; it has a URL exactly when the version is truthy, that URL is `vsix_url`'s; it raises exactly for a truthy version of a malformed name |
| `Driver.RecordFor` | vsix_extraction.py:222-233 | one step succeeds exactly when the search does and the name is well formed or the version not truthy; a failing search's error is passed on; the record holds the name and what was found |
| `Driver.CheckCompatResult` | vsix_extraction.py:220-235 | a successful `check_compat` returns one record per name |
| `Driver.CheckCompat` | vsix_extraction.py:208-235 | the loop computes `CheckCompatResult`: records in name order or the first exception |
| `Driver.OneRecordPerName` | vsix_extraction.py:220-235 | success exactly when every name's step succeeds, and then one record per name, in input order, duplicates kept |
| `Driver.FirstFailureRaised` | vsix_extraction.py:222-227 | a failure is the error of the first name whose step fails |
| `Driver.RecordContents` | vsix_extraction.py:222-233 | each record holds its name and the search result, a URL exactly for a truthy version, and that URL decodes to the name and version |
| `Driver.RealSearchRecordsDoNotRaise` | vsix_extraction.py:223-227 | behind the real search, building a record fails only when the search itself raised |
| `Driver.ExtensionNames` | vsix_extraction.py:240-248 | the name parsing computes `InstalledNames`: the header is dropped, and each line gives the text before its `@` |
| `Driver.ListingRoundTrip` | vsix_extraction.py:240-248 | a header followed by `name@version` lines reads back as the names, in order |
| `Driver.NamesOfLines` | vsix_extraction.py:245-248 | `name@version` lines read back as their names |
| `Driver.NamesOfSucceeds` | vsix_extraction.py:245-248 | the lines read without error exactly when each holds one `@`, giving one name per line |
| `Driver.NameOf` | vsix_extraction.py:247 | `ext.split('@')` unpacks exactly when the line holds one `@`, and otherwise raises for that line; the name is the `@`-free text before the `@` |
| `Driver.NamesOf` | vsix_extraction.py:245-248 | the lines after the header, read in order: on success one name per line |
| `Driver.InstalledNames` | vsix_extraction.py:239-248 | an empty listing raises on `pop(0)`; otherwise every line after the header gives one name |
| `Driver.PlanDownloads` | vsix_extraction.py:259-264 | one action per record, in order: the curl command for a truthy version, a warning otherwise |
| `Driver.DownloadsUseFoundUrl` | vsix_extraction.py:259-263 | for records built by `check_compat`, every download command uses the URL of the found version, never the text `None` |

## Left out

- `get_compatible_version` (vsix_extraction.py:42-59) runs `vsce show` in a subprocess and reads its JSON. This is external. Its result is the search oracle of `CheckCompat`. A failing `vsce` call, output that is not JSON, or JSON without the `versions` list (vsix_extraction.py:53-55) is the error `ToolFailure`, without further detail. `RealSearchRecordsDoNotRaise` connects the oracle's successful results to `Search`.
- `download_package` and `read_package_json` (vsix_extraction.py:103-141) do HTTP, temporary directories, unzipping and JSON parsing. They are I/O and become the manifest oracle. The oracle only gives "skip this version" or a manifest, so it does not model the cases that raise and abort the run: `requests.get` raising on a connection error or a time-out (vsix_extraction.py:114); a response that is not a zip archive, on which `zipfile.ZipFile` raises (vsix_extraction.py:133); a `package.json` that is not valid UTF-8, whose `UnicodeDecodeError` from `json.load` (vsix_extraction.py:138) the `except` at vsix_extraction.py:140 does not catch; and a manifest that parses to a non-empty JSON value other than an object, on which `package_json.get` (vsix_extraction.py:80) raises `AttributeError`.
- A manifest whose `engines` or `engines.vscode` is not an object or a string (vsix_extraction.py:80-82) is left out. The model assumes the field is a string when present.
- `code --list-extensions` (vsix_extraction.py:239), the curl execution (vsix_extraction.py:264) and `os.mkdir` (vsix_extraction.py:242-243) are subprocess and file-system calls. The listing is an input, and the commands are outputs of `PlanDownloads`.
- The cache file `compatible_packages.json` and the `override` flag (vsix_extraction.py:15, 250-257) are file I/O. The model goes straight from `CheckCompat` to `PlanDownloads`.
- The tqdm progress bar and the prints (vsix_extraction.py:73, 261-267) are UI.
- `Strings.IsDigits`: models `str.isdigit` as "non-empty, all ASCII `0`-`9`". Python also accepts other Unicode digits. For a Unicode decimal digit such as the full-width `３`, `int` gives its value (`int('３') == 3`), where the model keeps the token as a string component. For a digit that is not decimal, such as the superscript `²`, `int` raises, which the model does not capture either.
- Version strings are assumed to contain no newline. The regex `.` does not match a newline, so `re.match` could return `None` and `.groups()` would raise.
- `CompatSearch.HostAgainst`: makes no claim for minor version 77, where the third component decides. That case does not come up in the worked search.
