# odtquery core, modelled in Dafny

odtquery is a small command-line tool that inspects ODT (OpenDocument Text)
archives. This project models its decision logic:

- the **required-file verifier** (`verify`): it intersects the archive's
  member names with the five members every ODT package must contain
  (`content.xml`, `META-INF/manifest.xml`, `meta.xml`, `mimetype`,
  `styles.xml`). It reports success when all five are present. Otherwise it
  reports the missing ones, sorted ascending by lower-cased name;
- the **member listing** (`list`): one line per member, `(empty)` for a
  member without content and a byte count otherwise;
- the **per-file driver** (`process`): a failed open yields only the error.
  Otherwise verification runs before listing, each gated by its flag;
- the **configuration rule** in `getConfig`: at least one of the two actions
  must be selected.

An archive is a map from member name to content length (`Verifier.Archive`).
Opening an archive is a function parameter of `Driver.Process`. Report lines
are abstract values (`Report.Line`): what a line reports, plus its
indentation prefix.

Modules: `Wrappers` (Option/Result), `Lex` (lower-casing and lexicographic
order), `NameSort` (the sort by lower-cased name and its uniqueness),
`Verifier`, `Report`, `Lister` and `Driver`.

The help text calls listing the default action. The code instead rejects a
configuration with neither flag set (odtquery.go:96-106). The model follows
the code: `Driver.MakeConfig` rejects it.

## Model

| member | source | states |
|---|---|---|
| Verifier.Verify | odtquery.go:55-78 | The verdict is "verified" exactly when every required name is a member. In every case the verdict equals the reference verdict `ExpectedVerdict`, so on failure the missing list has the properties of `ExpectedVerdictMeaning`. |
| Verifier.ExpectedVerdictMeaning | odtquery.go:65-76 | The reference verdict is "verified" exactly when every required name is a member. Otherwise its missing list is non-empty and holds exactly the required names that are not members. Each appears once, strictly ascending by lower-cased name. |
| Verifier.CollectPresent | odtquery.go:56-61 | The loop over the members collects exactly the intersection of the member names with the required set. |
| Verifier.SizeTestMeansMissing | odtquery.go:65 | The size test `len(actualFiles) < len(expectedFiles)` holds exactly when some required name is not a member. The intersection never holds more than five names. |
| Verifier.ToSlice | odtquery.go:66 | The set difference becomes a sequence holding exactly its names, each once. The order is unspecified. |
| Verifier.Absent | odtquery.go:66 | The required names that are not keys, in their given order. It holds exactly those names, and a strictly sorted input gives a strictly sorted result. |
| Verifier.SortedMissingIsCanonical | odtquery.go:66-69 | Any duplicate-free list of exactly the missing names that is sorted by lower-cased name equals the canonical missing list. So the unstable sort still gives a unique result. |
| Verifier.ExpectedOrderIsSorted | odtquery.go:22-23 | The order content.xml, META-INF/manifest.xml, meta.xml, mimetype, styles.xml is strictly ascending by lower-cased name. |
| Verifier.ExpectedOrderMembers | odtquery.go:22-23 | That order lists exactly the five required names, and the required set has five elements. |
| Verifier.ExpectedLowerInjective | odtquery.go:22-23 | Distinct required names have distinct lower-cased forms. |
| Verifier.OtherNamesIgnored | odtquery.go:57-60 | Two archives that agree on which required names they contain get the same verdict. Other member names never affect the verdict or the missing list. |
| Verifier.AllMissingOrder | odtquery.go:65-69 | An archive without any required member is reported as missing all five, in the order content.xml, META-INF/manifest.xml, meta.xml, mimetype, styles.xml. |
| Verifier.StylesAndMimetypeMissing | odtquery.go:65-73 | An archive lacking only styles.xml and mimetype is reported as missing exactly ["mimetype", "styles.xml"]. |
| NameSort.SortByLower | odtquery.go:67-69 | The result is sorted ascending by lower-cased name and is a permutation of the input. |
| NameSort.Insert | odtquery.go:67-69 | Inserting into a sorted sequence keeps it sorted and adds exactly the one name. |
| NameSort.StrictlySortedUnique | odtquery.go:67-69 | Two sequences that are strictly ascending by lower-cased name and hold the same names are equal. |
| NameSort.NoDuplicatesPermutation | odtquery.go:66-67 | Sorting a duplicate-free slice leaves it duplicate-free. |
| Lex.NotLessTransitive | odtquery.go:67-69 | The order "lower-cased a is not after lower-cased b" is transitive. The sort relies on this. |
| Lex.LexTrichotomy | odtquery.go:68 | Any two strings are equal or strictly ordered by the lexicographic comparison. |
| Lister.List | odtquery.go:80-92 | There is exactly one line per member and no line repeats. A member of length zero gets the empty marker. Any other member gets its length as a byte count. Every line carries the two-space prefix exactly when `indent` is set. |
| Lister.ListingCoversEveryMember | odtquery.go:81-90 | A listing with one distinct member line per member mentions every member, whatever the iteration order. |
| Driver.Process | odtquery.go:41-53 | A failed open returns its error and produces no lines. Otherwise the result has no error. The verdict line comes first when verification is on, and the listing follows when listing is on. Nothing else is emitted, and every line carries the indentation prefix chosen by `indent` (odtquery.go:62-64, 82-84). |
| Driver.MakeConfig | odtquery.go:102-106 | A configuration is accepted exactly when listing or verification is selected, and then it keeps the given flags and files. Otherwise it is rejected with "no action specified". |

## Left out

- Opening and parsing the archive (`odt.Open`, odtquery.go:42): it is an external library. `Driver.Process` takes the opener as a function from file name to either an archive or an error message.
- Member contents: only their lengths are modelled, since `verify` and `list` use nothing else.
- Lex.Lower: lower-cases ASCII letters only. Go's `strings.ToLower` also maps non-ASCII letters. The verifier sorts only the five ASCII required names, so its results are unaffected.
- Lex.LexLess: compares characters, whereas Go compares UTF-8 bytes. The two orders agree.
- Printed text: the message wording, the italic styling (`gong.Italic`) and the digit grouping of byte counts (`gong.Commas`) come from external helpers. Report lines are abstract values instead.
- The iteration order of Go maps is unspecified. `CollectPresent`, `ToSlice` and `List` pick members in an arbitrary order, and their contracts do not depend on it.
- `main` (odtquery.go:25-39): it prints a header per file, prints `error:` lines and sets `indent` when more than one file is given. This is output only. Per-file error isolation already follows from `Driver.Process` returning its error instead of stopping.
- Command-line parsing (`makeParser`, `Parse`, `OnError`) and the embedded version string belong to an external library. Only the rule that at least one action is required is modelled. Program exit on a rejected configuration becomes a `Failure` value.
