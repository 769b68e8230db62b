# Test discovery collector of the pytest adapter, in Dafny

This project models the collector of a pytest adapter for a test-orchestration
protocol. The adapter receives a discovery request with a project path and a
list of selectors such as `tests/test_a.py?TestA/test_x`. It then:

1. drops the selectors whose file does not exist and records one load error for each;
2. builds the arguments for pytest's collect-only run;
3. listens to pytest's collection hooks, keeping the collected test items and the files whose collection failed and whose module then fails to import;
4. turns the collected items into named test cases and the failures into load errors;
5. sorts both lists by name.

The model consists of four modules:

- `PyStr` (`py_str.dfy`): the Python string and POSIX path builtins the collector uses. These are `str` ordering, `str.partition`, one-character `str.replace`, `str.endswith`, `os.path.join` and `os.path.splitext`.
- `Sorting` (`sorting.dfy`): `list.sort(key=...)` with a string key, written as a stable insertion sort. It is proved to return a sorted permutation of its input that keeps elements with equal keys in their original order.
- `Entities` (`entities.dfy`): the request, pytest's items, nodes and collection reports, and the report's test cases and load errors. It also holds the `LoadResult` class, whose two lists are updated in place.
- `Collector` (`collector.dfy`): `pytest/src/collector.py` itself. The selector filter and the report assembly are methods with loops, each proved equal to a specification function. The name construction is a set of functions with lemmas. The `PytestCollector` plugin is a class whose hook methods update its fields.

The collector depends on some things outside itself. The model takes them as inputs:

- Which selector paths exist is a set of path texts, relative to the project.
- Whether a module imports is a set of importable module names.
- The traceback text is a parameter.
- `selector_to_pytest`, `normalize_testcase_name`, `parse_case_attributes` and `os.path.relpath` are the function-valued fields of `Collector.Helpers`. They have no properties beyond being functions.
- Whether a Python object has an attribute (`hasattr`) is the `Entities.Attr` datatype.

## Model

| member | source | states |
|---|---|---|
| `Collector.FilterInvalidSelectorPath` | pytest/src/collector.py:95-112 | returns exactly the selectors whose path exists, in order; appends to the report's load errors exactly one error per other selector, after the earlier ones; leaves the tests alone |
| `Collector.CheckSelector` | pytest/src/collector.py:100-110 | one step of the filter: says whether the selector's path exists, and appends the selector's `invalid selector [...]` error exactly when it does not; the tests are unchanged |
| `Collector.PathPartIsPartition` | pytest/src/collector.py:100 | the path a selector names is the first part of `selector.partition("?")` |
| `Collector.PathPartSpec` | pytest/src/collector.py:100 | the path a selector names is a `?`-free prefix of it: all of it, or the text up to its first `?` |
| `Collector.SelectorFilterPartition` | pytest/src/collector.py:99-110 | a selector is kept iff its path exists and rejected iff it does not; kept plus rejected count every selector |
| `Collector.InvalidSelectorErrorsSpec` | pytest/src/collector.py:103-107 | kept selectors plus new load errors number the input selectors; each new error is named `invalid selector [<selector>]` after a rejected selector, and every rejected selector has its error |
| `Collector.InvalidSelectorErrorsOfRejected` | pytest/src/collector.py:103-107 | the new load errors are, position by position, the errors of the rejected selectors |
| `Collector.ValidSelectorsConcat` | pytest/src/collector.py:98-112 | the kept selectors keep their relative order: filtering a concatenation filters each part in turn |
| `Collector.RejectedSelectorsConcat` | pytest/src/collector.py:99-107 | the rejected selectors, and so their load errors, come in selector order |
| `Collector.TestcaseListMembers` | pytest/src/collector.py:36-38 | the path list holds the project-joined form of every non-empty converted path and nothing else; no path is dropped unless it is empty |
| `Collector.TestcaseListConcat` | pytest/src/collector.py:36-38 | the joined paths keep the order of the converted selectors |
| `Collector.RunnerArgsShape` | pytest/src/collector.py:35-47 | the runner arguments are `--rootdir=<project>`, `--collect-only`, `--continue-on-collection-errors`, `-v`, then exactly the joined paths of the valid selectors whose conversion is non-empty |
| `Collector.ClassItemName` | pytest/src/collector.py:57-62 | an item with path and class attributes is named `<relative path>?<name>` for every relative path, with `<Class>/` before the name when the item has a class; when the relative path holds no `?`, partitioning the name at `?` gives back the relative path and the name, which carries the class exactly when the item has one |
| `Collector.LocationItemName` | pytest/src/collector.py:65-68 | an item without those attributes and without a node id is named `<location file>?<location name>` for every location file, with every `.` of the name turned into `/` and nothing else changed; when the file holds no `?`, partitioning the name at `?` gives back the file and the rewritten name |
| `Collector.SlashBracketsSpec` | pytest/src/collector.py:70-71 | a name not ending in `]` is unchanged; otherwise the name still ends in `]`, grows by one character per `[`, and removing the `/` directly before each `[` gives back the original name |
| `Collector.TestNameSelectsItsFile` | pytest/src/collector.py:57-71 | read back as a selector, a class-or-function item's test name names the item's file, when that relative path holds no `?` or `[` |
| `Collector.AppendTestCases` | pytest/src/collector.py:56-74 | appends one test case per collected item, in collection order, named by the item's test name and carrying its parsed attributes, after the earlier tests; the load errors are unchanged |
| `Collector.CollectionErrorNameInjective` | pytest/src/collector.py:81 | distinct failed files give distinct load-error names |
| `Collector.CollectionErrors` | pytest/src/collector.py:78-84 | one load error per recorded failure, in recording order, named `load error of selector: [<file>]` and carrying the recorded traceback |
| `Collector.CollectionErrorsWithKey` | pytest/src/collector.py:78-84 | among the collection errors, the name of a recorded file occurs exactly once, and the name of any other file never occurs |
| `Collector.FullName` | pytest/src/collector.py:57-71 | computes exactly the item's test name: `<relative path>?<name>` for items with path and class, the normalised node id for items with one, `<location file>?<slashed name>` otherwise, with `/` put before each `[` when the name ends in `]` |
| `Collector.AppendCollectionErrors` | pytest/src/collector.py:78-84 | appends one load error per recorded failure, in recording order, after the earlier load errors; the tests are unchanged |
| `Collector.AssembleLoadResult` | pytest/src/collector.py:56-86 | the tests become the earlier tests plus one test case per collected item, sorted by name; the load errors become the earlier ones plus one per recorded failure, sorted by name |
| `Collector.CollectTestcases` | pytest/src/collector.py:20-86 | the runner gets the flags and the valid selectors' paths; the report's tests are the sorted test cases of the collected items; its load errors are the sorted invalid-selector and collection errors |
| `Collector.ReportedTests` | pytest/src/collector.py:56-76 | the reported tests are sorted by name, a permutation of one test case per collected item, and contain every item's test case |
| `Collector.ReportedLoadErrors` | pytest/src/collector.py:78-86 | the reported load errors are sorted by name and number the rejected selectors plus the recorded failures; each recorded failure appears exactly once under its own name, with its traceback |
| `Collector.ItemsOf` | pytest/src/collector.py:122-124 | keeps the test items among the nodes and nothing else, in order |
| `Collector.ItemsOfConcat` | pytest/src/collector.py:121-124 | two hook calls collect what one call on the concatenated nodes would |
| `Collector.PytestCollector.PytestCollectionModifyitems` | pytest/src/collector.py:121-124 | appends the test items among the nodes, in order, after what was collected before; the errors are unchanged |
| `Collector.ModuleName` | pytest/src/collector.py:131 | the module name derived from a file path holds no `/` and is no longer than the path |
| `Collector.AfterReport` | pytest/src/collector.py:126-136 | existing entries are never overwritten or removed; at most the report's file is added; a report that did not fail, or whose file is already recorded, changes nothing; the file is added iff the report failed and its module does not import; a newly added file's value is the report's traceback text `trace` |
| `Collector.AfterReportIdempotent` | pytest/src/collector.py:129-130 | hearing the same report twice records no more than hearing it once |
| `Collector.PytestCollector.PytestCollectreport` | pytest/src/collector.py:126-136 | the errors become `AfterReport` of the old errors; a newly recorded file is appended to the insertion order; the collected items are unchanged; the listener invariant holds |
| `Collector.PytestCollector.constructor` | pytest/src/collector.py:116-118 | a new listener has collected nothing and recorded no errors |
| `Sorting.SortBySortedPermutation` | pytest/src/collector.py:76 | sorting by name gives an ascending permutation of the list, of the same length |
| `Sorting.SortByStable` | pytest/src/collector.py:86 | the sort is stable: the elements with any one name keep their original order |
| `Sorting.InsertWithKey` | pytest/src/collector.py:76 | an inserted element goes ahead of every element with the same key |
| `PyStr.StrLeTotal` | pytest/src/collector.py:76 | any two names are comparable in Python's `str` order |
| `PyStr.StrLeTransitive` | pytest/src/collector.py:76 | Python's `str` order is transitive |
| `PyStr.StrLeAntisymmetric` | pytest/src/collector.py:86 | two names each at most the other are equal |
| `PyStr.PartitionSpec` | pytest/src/collector.py:100 | `partition("?")` splits at the first `?`: the parts rebuild the string and the first holds no `?`; without a `?` it is the whole string |
| `PyStr.PartitionOfJoin` | pytest/src/collector.py:62 | a name built as `<path>?<rest>` from a `?`-free path partitions back into that path and rest |
| `PyStr.ReplaceSpec` | pytest/src/collector.py:67 | one-character `replace` changes exactly the positions holding the old character, and leaves a string without it unchanged |
| `PyStr.ReplaceConcat` | pytest/src/collector.py:71 | `replace` works piecewise over a concatenation |
| `PyStr.UnslashUndoesSlashBrackets` | pytest/src/collector.py:71 | removing the `/` directly before each `[` undoes the rewrite of `[` into `/[`, for every string |
| `PyStr.SlashBeforeBrackets` | pytest/src/collector.py:71 | rewriting `[` to `/[` adds one character per bracket, keeps the bracket count, adds only slashes, and leaves every bracket right after a slash |
| `PyStr.JoinPathSpec` | pytest/src/collector.py:37 | `os.path.join` ends with the joined path, returns an absolute path unchanged, and otherwise starts with the base |
| `PyStr.SplitExtRoot` | pytest/src/collector.py:131 | `splitext(p)[0]` is a prefix of `p`; anything removed starts at the last `.`, lies within the last path component and follows a character of that component other than `.`; nothing is removed only when the last component has no `.` after a character other than `.` |

## Left out

- The call to `pytest.main` and the plugin wiring (pytest/src/collector.py:40-51). The runner is an external library. `CollectTestcases` returns the arguments it would pass. It takes the listener as the runner's collection phase left it.
- The `sys.path` insertion (pytest/src/collector.py:21-22). It is an interpreter side effect.
- Logging, `print` and the `Reporter` that writes the report out (pytest/src/collector.py:49-54, 88-92, 108, 119, 135). These are output only.
- `pathlib.Path(...).resolve().exists()`. Existence is a given set of selector path texts. The warning message shows `JoinPath(workspace, path)`, the textual POSIX join, not the path that `pathlib.Path(workspace, path)` normalises and `resolve()` then resolves (for example `Path("/ws", "")` is `/ws`, while `JoinPath("/ws", "")` is `/ws/`).
- The real `__import__`. Whether the dotted module imports is a given set of module names, and `traceback.format_exc()` is a given string. Exceptions outside `Exception` (such as `SystemExit`) would escape the hook; the model does not represent them.
- `Collector.ModuleName`: it uses the POSIX separator `/` for `os.path.sep`. It states only that no `/` is left and the name is no longer than the path, not the full `splitext` result on other platforms.
- `selector_to_pytest`, `normalize_testcase_name` and `parse_case_attributes`. The modules that define them are not part of this model. Neither is `os.path.relpath`. All four are inputs with no properties assumed.
- `Sorting.SortBy`: Python's Timsort is replaced by a stable insertion sort. The model proves the result sorted, a permutation of the input and stable. It does not prove that every stable sort gives the same list.
- django/src/load.py. It reads argv and a JSON file and decodes the request, which is I/O plumbing.
- `Collector.TestNameSelectsItsFile`: it requires the relative path to hold no `?` and no `[`. The bracket rewrite applies to the whole name, so a `[` in a directory name is rewritten too, and the name no longer reads back to the file.
- Lone surrogate code points in strings. Dafny's `char` is a Unicode scalar value, so a file name that Python decodes with `surrogateescape` has no counterpart here.
