/**
 * The collector of the pytest adapter: it filters the request's selectors,
 * builds the runner's arguments, listens to the runner's collection hooks,
 * and turns what was collected into a sorted report of test cases and
 * load errors.
 *
 * What lies outside this file is taken as given: the conversion of a
 * selector into a pytest path, the normalisation of a node id, the parsing
 * of a test case's attributes and `os.path.relpath` are the fields of
 * `Helpers`; which paths exist is a set of path texts; which modules import
 * cleanly is a set of module names.
 */
module Collector {
  import opened PyStr
  import opened Sorting
  import opened Entities

  /** The adapter's helpers that are defined outside the collector. */
  datatype Helpers = Helpers(
    selectorToPytest: string -> string,
    normalizeTestcaseName: string -> string,
    parseCaseAttributes: Item -> Attributes,
    relPath: (string, string) -> string)

  // ---------------------------------------------------------------------
  // Selector filter
  // ---------------------------------------------------------------------

  /** The path a selector names: its text before the first `?`, or all of it. */
  function PathPart(selector: string): string
  {
    if selector == [] || selector[0] == '?' then [] else [selector[0]] + PathPart(selector[1..])
  }

  /** The path part is what `selector.partition("?")` puts first. */
  lemma {:induction false} PathPartIsPartition(selector: string)
    ensures PathPart(selector) == Partition(selector, '?').0
  {
    if selector != [] && selector[0] != '?' {
      PathPartIsPartition(selector[1..]);
    }
  }

  /** The path part is the longest prefix free of `?`: all of the selector, or up to its first `?`. */
  lemma PathPartSpec(selector: string)
    ensures PathPart(selector) <= selector && '?' !in PathPart(selector)
    ensures PathPart(selector) != selector ==> selector[|PathPart(selector)|] == '?'
  {
    var r := Partition(selector, '?');
    PathPartIsPartition(selector);
    PartitionSpec(selector, '?');
    assert '?' in selector ==> selector == r.0 + (['?'] + r.2);
  }

  predicate PathExists(selector: string, existing: set<string>)
  {
    PathPart(selector) in existing
  }

  /** The selectors whose path exists, in their original order. */
  function ValidSelectors(selectors: seq<string>, existing: set<string>): (r: seq<string>)
    ensures |r| <= |selectors|
  {
    if selectors == [] then []
    else
      var n := |selectors| - 1;
      var init := ValidSelectors(selectors[..n], existing);
      if PathExists(selectors[n], existing) then init + [selectors[n]] else init
  }

  function InvalidSelectorMessage(workspace: string, path: string): string
  {
    "[WARNING]Path " + JoinPath(workspace, path) + " does not exist, SKIP collect"
  }

  function InvalidSelectorName(selector: string): string
  {
    "invalid selector [" + selector + "]"
  }

  function InvalidSelectorError(workspace: string, selector: string): LoadError
  {
    LoadError(InvalidSelectorName(selector), InvalidSelectorMessage(workspace, PathPart(selector)))
  }

  /** The selectors whose path does not exist, in their original order. */
  function RejectedSelectors(selectors: seq<string>, existing: set<string>): (r: seq<string>)
    ensures |r| <= |selectors|
  {
    if selectors == [] then []
    else
      var n := |selectors| - 1;
      var init := RejectedSelectors(selectors[..n], existing);
      if !PathExists(selectors[n], existing) then init + [selectors[n]] else init
  }

  /** One load error per selector whose path does not exist, in selector order. */
  function InvalidSelectorErrors(workspace: string, selectors: seq<string>, existing: set<string>): seq<LoadError>
  {
    if selectors == [] then []
    else
      var n := |selectors| - 1;
      var init := InvalidSelectorErrors(workspace, selectors[..n], existing);
      if PathExists(selectors[n], existing) then init else init + [InvalidSelectorError(workspace, selectors[n])]
  }

  /**
   * The filter partitions the selectors: a selector is kept exactly when its
   * path exists and rejected exactly when it does not; every selector lands
   * on one side.
   */
  lemma {:induction false} SelectorFilterPartition(selectors: seq<string>, existing: set<string>)
    ensures forall x :: x in ValidSelectors(selectors, existing) <==> x in selectors && PathExists(x, existing)
    ensures forall x :: x in RejectedSelectors(selectors, existing) <==> x in selectors && !PathExists(x, existing)
    ensures |ValidSelectors(selectors, existing)| + |RejectedSelectors(selectors, existing)| == |selectors|
  {
    if selectors != [] {
      var n := |selectors| - 1;
      SelectorFilterPartition(selectors[..n], existing);
      assert selectors == selectors[..n] + [selectors[n]];
    }
  }

  /**
   * Exactly one load error per rejected selector, named after it; together
   * with the kept selectors they account for every selector of the request.
   */
  lemma InvalidSelectorErrorsSpec(workspace: string, selectors: seq<string>, existing: set<string>)
    ensures |ValidSelectors(selectors, existing)| + |InvalidSelectorErrors(workspace, selectors, existing)| == |selectors|
    ensures forall e :: e in InvalidSelectorErrors(workspace, selectors, existing) ==>
              exists x :: x in selectors && !PathExists(x, existing) && e.name == "invalid selector [" + x + "]"
    ensures forall x :: x in selectors && !PathExists(x, existing) ==>
              InvalidSelectorError(workspace, x) in InvalidSelectorErrors(workspace, selectors, existing)
  {
    SelectorFilterPartition(selectors, existing);
    InvalidSelectorErrorsOfRejected(workspace, selectors, existing);
    var rejected := RejectedSelectors(selectors, existing);
    var errs := InvalidSelectorErrors(workspace, selectors, existing);
    forall e | e in errs
      ensures exists x :: x in selectors && !PathExists(x, existing) && e.name == "invalid selector [" + x + "]"
    {
      var i :| 0 <= i < |errs| && errs[i] == e;
      assert rejected[i] in rejected;
    }
    forall x | x in selectors && !PathExists(x, existing)
      ensures InvalidSelectorError(workspace, x) in errs
    {
      var i :| 0 <= i < |rejected| && rejected[i] == x;
      assert errs[i] == InvalidSelectorError(workspace, x);
    }
  }

  /** The load errors are the rejected selectors' errors, position by position. */
  lemma {:induction false} InvalidSelectorErrorsOfRejected(workspace: string, selectors: seq<string>, existing: set<string>)
    ensures |InvalidSelectorErrors(workspace, selectors, existing)| == |RejectedSelectors(selectors, existing)|
    ensures forall i :: 0 <= i < |RejectedSelectors(selectors, existing)| ==>
              InvalidSelectorErrors(workspace, selectors, existing)[i] ==
              InvalidSelectorError(workspace, RejectedSelectors(selectors, existing)[i])
  {
    if selectors != [] {
      var n := |selectors| - 1;
      InvalidSelectorErrorsOfRejected(workspace, selectors[..n], existing);
    }
  }

  /** One more selector: the kept list and the load errors grow by that selector's outcome. */
  lemma FilterStep(workspace: string, selectors: seq<string>, i: nat, existing: set<string>)
    requires i < |selectors|
    ensures ValidSelectors(selectors[..i + 1], existing) ==
            ValidSelectors(selectors[..i], existing) + (if PathExists(selectors[i], existing) then [selectors[i]] else [])
    ensures InvalidSelectorErrors(workspace, selectors[..i + 1], existing) ==
            InvalidSelectorErrors(workspace, selectors[..i], existing)
            + (if PathExists(selectors[i], existing) then [] else [InvalidSelectorError(workspace, selectors[i])])
  {
    var next := selectors[..i + 1];
    assert next[..i] == selectors[..i] && next[i] == selectors[i];
  }

  /** Appending one selector to the request appends it to the kept or to the rejected selectors. */
  lemma SelectorsSnoc(s: seq<string>, x: string, existing: set<string>)
    ensures ValidSelectors(s + [x], existing) == ValidSelectors(s, existing) + (if PathExists(x, existing) then [x] else [])
    ensures RejectedSelectors(s + [x], existing) == RejectedSelectors(s, existing) + (if PathExists(x, existing) then [] else [x])
  {
    var sx := s + [x];
    assert sx[..|sx| - 1] == s && sx[|sx| - 1] == x;
  }

  /** The filter keeps order: filtering a concatenation filters each part in turn. */
  lemma {:induction false} ValidSelectorsConcat(a: seq<string>, b: seq<string>, existing: set<string>)
    ensures ValidSelectors(a + b, existing) == ValidSelectors(a, existing) + ValidSelectors(b, existing)
  {
    if b == [] {
      assert a + b == a;
    } else {
      var n := |b| - 1;
      var init, x := b[..n], b[n];
      assert b == init + [x] && a + b == (a + init) + [x];
      var tail: seq<string> := if PathExists(x, existing) then [x] else [];
      ValidSelectorsConcat(a, init, existing);
      SelectorsSnoc(a + init, x, existing);
      SelectorsSnoc(init, x, existing);
      var va, vi := ValidSelectors(a, existing), ValidSelectors(init, existing);
      assert va + vi + tail == va + (vi + tail);
    }
  }

  /** The rejected selectors, too, keep their order. */
  lemma {:induction false} RejectedSelectorsConcat(a: seq<string>, b: seq<string>, existing: set<string>)
    ensures RejectedSelectors(a + b, existing) == RejectedSelectors(a, existing) + RejectedSelectors(b, existing)
  {
    if b == [] {
      assert a + b == a;
    } else {
      var n := |b| - 1;
      var init, x := b[..n], b[n];
      assert b == init + [x] && a + b == (a + init) + [x];
      var tail: seq<string> := if PathExists(x, existing) then [] else [x];
      RejectedSelectorsConcat(a, init, existing);
      SelectorsSnoc(a + init, x, existing);
      SelectorsSnoc(init, x, existing);
      var ra, ri := RejectedSelectors(a, existing), RejectedSelectors(init, existing);
      assert ra + ri + tail == ra + (ri + tail);
    }
  }

  /**
   * `_filter_invalid_selector_path`: returns the selectors whose path exists
   * and appends one load error to the report for each of the others.
   */
  method FilterInvalidSelectorPath(workspace: string, loadResult: LoadResult, selectors: seq<string>, existing: set<string>)
    returns (valid: seq<string>)
    modifies loadResult
    ensures valid == ValidSelectors(selectors, existing)
    ensures loadResult.loadErrors == old(loadResult.loadErrors) + InvalidSelectorErrors(workspace, selectors, existing)
    ensures loadResult.tests == old(loadResult.tests)
  {
    ghost var before := loadResult.loadErrors;
    valid := [];
    for i := 0 to |selectors|
      invariant valid == ValidSelectors(selectors[..i], existing)
      invariant loadResult.loadErrors == before + InvalidSelectorErrors(workspace, selectors[..i], existing)
      invariant loadResult.tests == old(loadResult.tests)
    {
      var selector := selectors[i];
      ghost var errs := InvalidSelectorErrors(workspace, selectors[..i], existing);
      var found := CheckSelector(workspace, loadResult, selector, existing);
      ghost var added := if found then [] else [InvalidSelectorError(workspace, selector)];
      if found {
        valid := valid + [selector];
      }
      assert valid == ValidSelectors(selectors[..i + 1], existing) by {
        FilterStep(workspace, selectors, i, existing);
      }
      assert loadResult.loadErrors == before + InvalidSelectorErrors(workspace, selectors[..i + 1], existing) by {
        FilterStep(workspace, selectors, i, existing);
        assert before + errs + added == before + (errs + added);
      }
    }
    assert selectors[..|selectors|] == selectors;
  }

  /**
   * One step of the filter: a selector whose path does not exist gets a load
   * error appended to the report; the result says whether the path exists.
   */
  method CheckSelector(workspace: string, loadResult: LoadResult, selector: string, existing: set<string>)
    returns (found: bool)
    modifies loadResult
    ensures found == PathExists(selector, existing)
    ensures loadResult.loadErrors ==
            old(loadResult.loadErrors) + (if found then [] else [InvalidSelectorError(workspace, selector)])
    ensures loadResult.tests == old(loadResult.tests)
  {
    var (path, _, _) := Partition(selector, '?');
    PathPartIsPartition(selector);
    found := path in existing;
    if !found {
      var message := InvalidSelectorMessage(workspace, path);
      loadResult.loadErrors := loadResult.loadErrors + [LoadError(InvalidSelectorName(selector), message)];
    }
  }

  // ---------------------------------------------------------------------
  // Runner arguments
  // ---------------------------------------------------------------------

  /** Each valid selector converted to a pytest path. */
  function PytestPaths(validSelectors: seq<string>, h: Helpers): seq<string>
  {
    seq(|validSelectors|, i requires 0 <= i < |validSelectors| => h.selectorToPytest(validSelectors[i]))
  }

  /** The non-empty pytest paths joined onto the project path, in order. */
  function TestcaseList(projectPath: string, pytestPaths: seq<string>): (r: seq<string>)
    ensures |r| <= |pytestPaths|
  {
    if pytestPaths == [] then []
    else
      var n := |pytestPaths| - 1;
      var init := TestcaseList(projectPath, pytestPaths[..n]);
      if pytestPaths[n] != "" then init + [JoinPath(projectPath, pytestPaths[n])] else init
  }

  /** The list holds the joined form of every non-empty path and nothing else; no path is dropped unless it is empty. */
  lemma {:induction false} TestcaseListMembers(projectPath: string, pytestPaths: seq<string>)
    ensures forall p :: p in pytestPaths && p != "" ==> JoinPath(projectPath, p) in TestcaseList(projectPath, pytestPaths)
    ensures forall x :: x in TestcaseList(projectPath, pytestPaths) ==>
              exists p :: p in pytestPaths && p != "" && x == JoinPath(projectPath, p)
    ensures "" !in pytestPaths ==> |TestcaseList(projectPath, pytestPaths)| == |pytestPaths|
  {
    if pytestPaths != [] {
      var n := |pytestPaths| - 1;
      var init := pytestPaths[..n];
      var p := pytestPaths[n];
      TestcaseListMembers(projectPath, init);
      assert pytestPaths == init + [p];
      var last: seq<string> := if p != "" then [JoinPath(projectPath, p)] else [];
      var list := TestcaseList(projectPath, pytestPaths);
      var initList := TestcaseList(projectPath, init);
      assert list == initList + last;
      forall q | q in pytestPaths && q != ""
        ensures JoinPath(projectPath, q) in list
      {
        if q != p {
          assert q in init;
        }
      }
      forall x | x in list
        ensures exists q :: q in pytestPaths && q != "" && x == JoinPath(projectPath, q)
      {
        if x in initList {
          var q :| q in init && q != "" && x == JoinPath(projectPath, q);
          assert q in pytestPaths;
        } else {
          assert x in last && p in pytestPaths;
        }
      }
    }
  }

  lemma {:induction false} TestcaseListConcat(projectPath: string, a: seq<string>, b: seq<string>)
    ensures TestcaseList(projectPath, a + b) == TestcaseList(projectPath, a) + TestcaseList(projectPath, b)
  {
    if b == [] {
      assert a + b == a;
    } else {
      var n := |b| - 1;
      assert (a + b)[..|a + b| - 1] == a + b[..n] && (a + b)[|a + b| - 1] == b[n];
      TestcaseListConcat(projectPath, a, b[..n]);
    }
  }

  /** The four fixed flags the runner is always given. */
  function RunnerFlags(projectPath: string): seq<string>
  {
    ["--rootdir=" + projectPath, "--collect-only", "--continue-on-collection-errors", "-v"]
  }

  function RunnerArgs(projectPath: string, validSelectors: seq<string>, h: Helpers): seq<string>
  {
    RunnerFlags(projectPath) + TestcaseList(projectPath, PytestPaths(validSelectors, h))
  }

  /**
   * The runner's arguments are the four flags followed by exactly the
   * project-joined paths of the valid selectors whose conversion is not empty.
   */
  lemma RunnerArgsShape(projectPath: string, validSelectors: seq<string>, h: Helpers)
    ensures |RunnerArgs(projectPath, validSelectors, h)| <= 4 + |validSelectors|
    ensures RunnerArgs(projectPath, validSelectors, h)[..4] ==
            ["--rootdir=" + projectPath, "--collect-only", "--continue-on-collection-errors", "-v"]
    ensures forall x :: x in validSelectors && h.selectorToPytest(x) != "" ==>
              JoinPath(projectPath, h.selectorToPytest(x)) in RunnerArgs(projectPath, validSelectors, h)[4..]
    ensures forall a :: a in RunnerArgs(projectPath, validSelectors, h)[4..] ==>
              exists x :: x in validSelectors && h.selectorToPytest(x) != "" && a == JoinPath(projectPath, h.selectorToPytest(x))
  {
    var paths := PytestPaths(validSelectors, h);
    var list := TestcaseList(projectPath, paths);
    TestcaseListMembers(projectPath, paths);
    assert RunnerArgs(projectPath, validSelectors, h)[4..] == list;
    forall x | x in validSelectors && h.selectorToPytest(x) != ""
      ensures JoinPath(projectPath, h.selectorToPytest(x)) in list
    {
      var j :| 0 <= j < |validSelectors| && validSelectors[j] == x;
      assert paths[j] == h.selectorToPytest(x);
    }
    forall a | a in list
      ensures exists x :: x in validSelectors && h.selectorToPytest(x) != "" && a == JoinPath(projectPath, h.selectorToPytest(x))
    {
      var p :| p in paths && p != "" && a == JoinPath(projectPath, p);
      var j :| 0 <= j < |paths| && paths[j] == p;
      assert validSelectors[j] in validSelectors;
    }
  }

  // ---------------------------------------------------------------------
  // Test names
  // ---------------------------------------------------------------------

  /** The name of a collected item before the bracket rewrite. */
  function BaseName(item: Item, projectPath: string, h: Helpers): string
  {
    if item.path.Present? && item.cls.Present? then
      var relPath := h.relPath(item.path.value, projectPath);
      var name := if item.cls.value.Some? then item.cls.value.value + "/" + item.name else item.name;
      relPath + "?" + name
    else if item.nodeid.Present? then
      h.normalizeTestcaseName(item.nodeid.value)
    else
      item.location.file + "?" + Replace(item.location.domain, '.', "/")
  }

  /** A name ending in `]` (a parametrised case) gets every `[` rewritten to `/[`. */
  function SlashBrackets(name: string): string
  {
    if EndsWith(name, ']') then Replace(name, '[', "/[") else name
  }

  /** The report name of a collected item. */
  function TestName(item: Item, projectPath: string, h: Helpers): string
  {
    SlashBrackets(BaseName(item, projectPath, h))
  }

  /**
   * An item with a path and a class attribute is named by its relative path,
   * `?`, and its name, with the class name and `/` in front of the name
   * exactly when the item belongs to a class.
   */
  lemma ClassItemName(item: Item, projectPath: string, h: Helpers)
    requires item.path.Present? && item.cls.Present?
    ensures var b := BaseName(item, projectPath, h);
            var rp := h.relPath(item.path.value, projectPath);
            var n := if item.cls.value.Some? then item.cls.value.value + "/" + item.name else item.name;
            |b| == |rp| + 1 + |n| && b[..|rp|] == rp && b[|rp|] == '?' && b[|rp| + 1..] == n
    ensures '?' !in h.relPath(item.path.value, projectPath) ==>
              && Partition(BaseName(item, projectPath, h), '?').0 == h.relPath(item.path.value, projectPath)
              && Partition(BaseName(item, projectPath, h), '?').1 == "?"
              && (item.cls.value.Some? ==>
                    Partition(BaseName(item, projectPath, h), '?').2 == item.cls.value.value + "/" + item.name)
              && (item.cls.value.None? <==> Partition(BaseName(item, projectPath, h), '?').2 == item.name)
  {
    var relPath := h.relPath(item.path.value, projectPath);
    var name := if item.cls.value.Some? then item.cls.value.value + "/" + item.name else item.name;
    assert relPath + "?" + name == relPath + ['?'] + name;
    if '?' !in relPath {
      PartitionOfJoin(relPath, '?', name);
    }
  }

  /**
   * An item without path/class attributes and without a node id is named by
   * its location's file, `?`, and its dotted name with every `.` turned into `/`.
   */
  lemma LocationItemName(item: Item, projectPath: string, h: Helpers)
    requires !(item.path.Present? && item.cls.Present?) && item.nodeid.Absent?
    ensures var b := BaseName(item, projectPath, h);
            var f := item.location.file;
            var d := item.location.domain;
            && |b| == |f| + 1 + |d| && b[..|f|] == f && b[|f|] == '?'
            && b[|f| + 1..] == Replace(d, '.', "/")
    ensures '?' !in item.location.file ==>
              && Partition(BaseName(item, projectPath, h), '?').0 == item.location.file
              && Partition(BaseName(item, projectPath, h), '?').1 == "?"
              && Partition(BaseName(item, projectPath, h), '?').2 == Replace(item.location.domain, '.', "/")
    ensures var rest := Replace(item.location.domain, '.', "/");
            |rest| == |item.location.domain| && '.' !in rest &&
            forall i :: 0 <= i < |rest| ==> rest[i] == if item.location.domain[i] == '.' then '/' else item.location.domain[i]
  {
    var f := item.location.file;
    var rest := Replace(item.location.domain, '.', "/");
    ReplaceSpec(item.location.domain, '.', "/");
    var b := f + ['?'] + rest;
    assert f + "?" + rest == b;
    if '?' !in f {
      PartitionOfJoin(f, '?', rest);
    }
  }

  /**
   * The bracket rewrite leaves a name not ending in `]` alone; otherwise it
   * inserts exactly one `/` before each `[` and nothing else, and the name
   * still ends in `]`.
   */
  lemma SlashBracketsSpec(name: string)
    ensures !EndsWith(name, ']') ==> SlashBrackets(name) == name
    ensures EndsWith(name, ']') ==>
              && EndsWith(SlashBrackets(name), ']')
              && |SlashBrackets(name)| == |name| + Count(name, '[')
              && Drop(SlashBrackets(name), '/') == Drop(name, '/')
              && forall i :: 0 <= i < |SlashBrackets(name)| && SlashBrackets(name)[i] == '[' ==>
                   0 < i && SlashBrackets(name)[i - 1] == '/'
    ensures EndsWith(name, ']') ==> Unslash(SlashBrackets(name)) == name
  {
    SlashBeforeBrackets(name);
    UnslashUndoesSlashBrackets(name);
    if EndsWith(name, ']') {
      ReplaceKeepsLast(name, '[', "/[");
    }
  }

  /**
   * Read back as a selector, the name of an item with a path and a class
   * attribute names the item's file, provided that relative path holds
   * neither `?` nor `[`.
   */
  lemma TestNameSelectsItsFile(item: Item, projectPath: string, h: Helpers)
    requires item.path.Present? && item.cls.Present?
    requires '?' !in h.relPath(item.path.value, projectPath) && '[' !in h.relPath(item.path.value, projectPath)
    ensures PathPart(TestName(item, projectPath, h)) == h.relPath(item.path.value, projectPath)
  {
    var relPath := h.relPath(item.path.value, projectPath);
    var name := if item.cls.value.Some? then item.cls.value.value + "/" + item.name else item.name;
    var base := BaseName(item, projectPath, h);
    assert base == relPath + ['?'] + name;
    PathPartIsPartition(TestName(item, projectPath, h));
    if EndsWith(base, ']') {
      BracketsAfterPath(relPath, name);
      PartitionOfJoin(relPath, '?', Replace(name, '[', "/["));
    } else {
      PartitionOfJoin(relPath, '?', name);
    }
  }

  /** The bracket rewrite of `<path>?<name>` leaves a bracket-free path and the `?` alone. */
  lemma BracketsAfterPath(relPath: string, name: string)
    requires '[' !in relPath
    ensures Replace(relPath + ['?'] + name, '[', "/[") == relPath + ['?'] + Replace(name, '[', "/[")
  {
    assert relPath + ['?'] + name == relPath + (['?'] + name);
    ReplaceConcat(relPath, ['?'] + name, '[', "/[");
    ReplaceConcat(['?'], name, '[', "/[");
    ReplaceSpec(['?'], '[', "/[");
    ReplaceSpec(relPath, '[', "/[");
  }

  /** One test case per collected item, in collection order. */
  function TestCases(items: seq<Item>, projectPath: string, h: Helpers): seq<TestCase>
  {
    seq(|items|, i requires 0 <= i < |items| => TestCase(TestName(items[i], projectPath, h), h.parseCaseAttributes(items[i])))
  }

  // ---------------------------------------------------------------------
  // Collection errors
  // ---------------------------------------------------------------------

  function CollectionErrorName(key: string): string
  {
    "load error of selector: [" + key + "]"
  }

  lemma CollectionErrorNameInjective(a: string, b: string)
    requires CollectionErrorName(a) == CollectionErrorName(b)
    ensures a == b
  {
    var p := "load error of selector: [";
    assert |a| == |b|;
    assert a == CollectionErrorName(a)[|p|..|p| + |a|];
    assert b == CollectionErrorName(b)[|p|..|p| + |b|];
  }

  /** One load error per recorded collection failure, in the order the failures were recorded. */
  function CollectionErrors(keys: seq<string>, errors: map<string, string>): (r: seq<LoadError>)
    requires forall k :: k in keys ==> k in errors
    ensures |r| == |keys|
    ensures forall i :: 0 <= i < |keys| ==> r[i] == LoadError(CollectionErrorName(keys[i]), errors[keys[i]])
  {
    if keys == [] then []
    else
      var n := |keys| - 1;
      assert forall k :: k in keys[..n] ==> k in keys;
      CollectionErrors(keys[..n], errors) + [LoadError(CollectionErrorName(keys[n]), errors[keys[n]])]
  }

  // ---------------------------------------------------------------------
  // The collection listener
  // ---------------------------------------------------------------------

  /** The test items among the runner's nodes, in order. */
  function ItemsOf(nodes: seq<Node>): (r: seq<Item>)
    ensures |r| <= |nodes|
    ensures forall x :: x in r <==> ItemNode(x) in nodes
  {
    if nodes == [] then []
    else
      var n := |nodes| - 1;
      assert nodes == nodes[..n] + [nodes[n]];
      ItemsOf(nodes[..n]) + (if nodes[n].ItemNode? then [nodes[n].item] else [])
  }

  /** Two hook calls collect what one call on the concatenated nodes would. */
  lemma {:induction false} ItemsOfConcat(a: seq<Node>, b: seq<Node>)
    ensures ItemsOf(a + b) == ItemsOf(a) + ItemsOf(b)
  {
    if b == [] {
      assert a + b == a;
    } else {
      var n := |b| - 1;
      assert (a + b)[..|a + b| - 1] == a + b[..n] && (a + b)[|a + b| - 1] == b[n];
      ItemsOfConcat(a, b[..n]);
    }
  }

  /** The dotted module name of a file path: its extension dropped, each `/` turned into `.`. */
  function ModuleName(fspath: string): (r: string)
    ensures |r| <= |fspath| && '/' !in r
  {
    var root := SplitExtRoot(fspath);
    var r := Replace(root, '/', ".");
    ReplaceSpec(root, '/', ".");
    assert forall i :: 0 <= i < |r| ==> r[i] != '/';
    r
  }

  /** The errors after one collection report. */
  function AfterReport(errors: map<string, string>, report: CollectReport, importable: set<string>, trace: string)
    : (r: map<string, string>)
    ensures forall k :: k in errors ==> k in r && r[k] == errors[k]
    ensures r.Keys <= errors.Keys + {report.fspath}
    ensures !report.failed || report.fspath in errors ==> r == errors
    ensures report.fspath in r <==> report.fspath in errors || (report.failed && ModuleName(report.fspath) !in importable)
    ensures report.fspath in r && report.fspath !in errors ==> r[report.fspath] == trace
  {
    if report.failed && report.fspath !in errors && ModuleName(report.fspath) !in importable then
      errors[report.fspath := trace]
    else
      errors
  }

  /** Hearing the same report twice records no more than hearing it once. */
  lemma AfterReportIdempotent(errors: map<string, string>, report: CollectReport, importable: set<string>, trace: string, trace': string)
    ensures AfterReport(AfterReport(errors, report, importable, trace), report, importable, trace') ==
            AfterReport(errors, report, importable, trace)
  {
  }

  /**
   * The plugin handed to the runner. `errors` is a dictionary, so its keys
   * also have an insertion order, kept in `errorOrder`.
   */
  class PytestCollector {
    var collected: seq<Item>
    var errors: map<string, string>
    var errorOrder: seq<string>

    ghost predicate Valid()
      reads this
    {
      && (forall k :: k in errors <==> k in errorOrder)
      && (forall i, j :: 0 <= i < j < |errorOrder| ==> errorOrder[i] != errorOrder[j])
    }

    constructor ()
      ensures Valid()
      ensures collected == [] && errors == map[] && errorOrder == []
    {
      collected := [];
      errors := map[];
      errorOrder := [];
    }

    /** `pytest_collection_modifyitems`: appends the test items among `items`, in order. */
    method PytestCollectionModifyitems(items: seq<Node>)
      modifies this
      ensures collected == old(collected) + ItemsOf(items)
      ensures errors == old(errors) && errorOrder == old(errorOrder)
    {
      for i := 0 to |items|
        invariant collected == old(collected) + ItemsOf(items[..i])
        invariant errors == old(errors) && errorOrder == old(errorOrder)
      {
        assert items[..i + 1][..i] == items[..i];
        if items[i].ItemNode? {
          collected := collected + [items[i].item];
        }
      }
      assert items[..|items|] == items;
    }

    /**
     * `pytest_collectreport`: a failed report on a file not yet recorded is
     * recorded, with `trace`, when the file's module does not import.
     */
    method PytestCollectreport(report: CollectReport, importable: set<string>, trace: string)
      requires Valid()
      modifies this
      ensures Valid()
      ensures errors == AfterReport(old(errors), report, importable, trace)
      ensures errorOrder == old(errorOrder) + (if report.fspath in errors && report.fspath !in old(errors) then [report.fspath] else [])
      ensures collected == old(collected)
    {
      if report.failed {
        var path := report.fspath;
        if path in errors {
          return;
        }
        var modulePath := ModuleName(path);
        if modulePath !in importable {
          errors := errors[report.fspath := trace];
          errorOrder := errorOrder + [report.fspath];
        }
      }
    }
  }

  // ---------------------------------------------------------------------
  // Report assembly
  // ---------------------------------------------------------------------

  /**
   * The name one collected item is reported under: built from its path and
   * class, its node id, or its location, then given the bracket rewrite.
   * The source builds this name by reassigning one variable branch by branch;
   * this method keeps that step-by-step form, and its postcondition ties it to
   * the function `TestName`, about which the name lemmas are stated.
   */
  method FullName(item: Item, projectPath: string, h: Helpers) returns (fullName: string)
    ensures fullName == TestName(item, projectPath, h)
  {
    if item.path.Present? && item.cls.Present? {
      var relPath := h.relPath(item.path.value, projectPath);
      var name := item.name;
      if item.cls.value.Some? {
        name := item.cls.value.value + "/" + name;
      }
      fullName := relPath + "?" + name;
    } else if item.nodeid.Present? {
      fullName := h.normalizeTestcaseName(item.nodeid.value);
    } else {
      var relPath := item.location.file;
      var name := Replace(item.location.domain, '.', "/");
      fullName := relPath + "?" + name;
    }
    if EndsWith(fullName, ']') {
      fullName := Replace(fullName, '[', "/[");
    }
  }

  /**
   * The report assembly after the runner returns: one test case per collected
   * item and one load error per recorded failure are appended, and each list
   * is sorted by name.
   */
  method AssembleLoadResult(loadResult: LoadResult, plugin: PytestCollector, projectPath: string, h: Helpers)
    requires plugin.Valid()
    modifies loadResult
    ensures loadResult.tests == SortBy(old(loadResult.tests) + TestCases(plugin.collected, projectPath, h), TestCaseName)
    ensures loadResult.loadErrors ==
            SortBy(old(loadResult.loadErrors) + CollectionErrors(plugin.errorOrder, plugin.errors), LoadErrorName)
  {
    AppendTestCases(loadResult, plugin.collected, projectPath, h);
    loadResult.tests := SortBy(loadResult.tests, TestCaseName);
    AppendCollectionErrors(loadResult, plugin);
    loadResult.loadErrors := SortBy(loadResult.loadErrors, LoadErrorName);
  }

  /** One test case per collected item, appended in collection order. */
  method AppendTestCases(loadResult: LoadResult, items: seq<Item>, projectPath: string, h: Helpers)
    modifies loadResult
    ensures loadResult.tests == old(loadResult.tests) + TestCases(items, projectPath, h)
    ensures loadResult.loadErrors == old(loadResult.loadErrors)
  {
    ghost var before := loadResult.tests;
    ghost var cases: seq<TestCase> := [];
    for i := 0 to |items|
      invariant cases == TestCases(items[..i], projectPath, h)
      invariant loadResult.tests == before + cases
      invariant loadResult.loadErrors == old(loadResult.loadErrors)
    {
      var item := items[i];
      var fullName := FullName(item, projectPath, h);
      var attributes := h.parseCaseAttributes(item);
      TestCasesStep(items, i, projectPath, h);
      loadResult.tests := loadResult.tests + [TestCase(fullName, attributes)];
      assert before + cases + [TestCase(fullName, attributes)] == before + (cases + [TestCase(fullName, attributes)]);
      cases := cases + [TestCase(fullName, attributes)];
    }
    assert items[..|items|] == items;
  }

  /** One more item adds its test case at the end. */
  lemma TestCasesStep(items: seq<Item>, i: nat, projectPath: string, h: Helpers)
    requires i < |items|
    ensures TestCases(items[..i + 1], projectPath, h) ==
            TestCases(items[..i], projectPath, h) + [TestCase(TestName(items[i], projectPath, h), h.parseCaseAttributes(items[i]))]
  {
    var next := TestCases(items[..i + 1], projectPath, h);
    var prev := TestCases(items[..i], projectPath, h);
    var last := TestCase(TestName(items[i], projectPath, h), h.parseCaseAttributes(items[i]));
    forall j | 0 <= j < i + 1
      ensures next[j] == (prev + [last])[j]
    {
      if j < i {
        assert items[..i + 1][j] == items[..i][j];
      }
    }
  }

  /** One load error per failure the listener recorded, appended in recording order. */
  method AppendCollectionErrors(loadResult: LoadResult, plugin: PytestCollector)
    requires plugin.Valid()
    modifies loadResult
    ensures loadResult.loadErrors == old(loadResult.loadErrors) + CollectionErrors(plugin.errorOrder, plugin.errors)
    ensures loadResult.tests == old(loadResult.tests)
  {
    var keys := plugin.errorOrder;
    for i := 0 to |keys|
      invariant loadResult.loadErrors == old(loadResult.loadErrors) + CollectionErrors(keys[..i], plugin.errors)
      invariant loadResult.tests == old(loadResult.tests)
    {
      var key := keys[i];
      loadResult.loadErrors := loadResult.loadErrors + [LoadError(CollectionErrorName(key), plugin.errors[key])];
      assert keys[..i + 1][..i] == keys[..i];
    }
    assert keys[..|keys|] == keys;
  }

  /**
   * `collect_testcases` around the runner: the selectors are filtered, the
   * runner's arguments are built and returned, and the report is assembled
   * from `plugin`, the listener as the runner's collection phase left it.
   */
  method CollectTestcases(entry: EntryParam, existing: set<string>, h: Helpers, plugin: PytestCollector)
    returns (loadResult: LoadResult, args: seq<string>)
    requires plugin.Valid()
    ensures fresh(loadResult)
    ensures args == RunnerArgs(entry.projectPath, ValidSelectors(entry.testSelectors, existing), h)
    ensures loadResult.tests == SortBy(TestCases(plugin.collected, entry.projectPath, h), TestCaseName)
    ensures loadResult.loadErrors ==
            SortBy(InvalidSelectorErrors(entry.projectPath, entry.testSelectors, existing)
                   + CollectionErrors(plugin.errorOrder, plugin.errors), LoadErrorName)
  {
    loadResult := new LoadResult([], []);
    var validSelectors := FilterInvalidSelectorPath(entry.projectPath, loadResult, entry.testSelectors, existing);
    var pytestPaths := PytestPaths(validSelectors, h);
    var testcaseList := TestcaseList(entry.projectPath, pytestPaths);
    args := RunnerFlags(entry.projectPath);
    args := args + testcaseList;
    ghost var invalid := InvalidSelectorErrors(entry.projectPath, entry.testSelectors, existing);
    assert loadResult.tests == [] && loadResult.loadErrors == [] + invalid == invalid;
    AssembleLoadResult(loadResult, plugin, entry.projectPath, h);
    assert [] + TestCases(plugin.collected, entry.projectPath, h) == TestCases(plugin.collected, entry.projectPath, h);
  }

  // ---------------------------------------------------------------------
  // Properties of the assembled report
  // ---------------------------------------------------------------------

  /** The report's tests: one per collected item, sorted by name. */
  lemma ReportedTests(items: seq<Item>, projectPath: string, h: Helpers)
    ensures |SortBy(TestCases(items, projectPath, h), TestCaseName)| == |items|
    ensures SortedBy(SortBy(TestCases(items, projectPath, h), TestCaseName), TestCaseName)
    ensures multiset(SortBy(TestCases(items, projectPath, h), TestCaseName)) == multiset(TestCases(items, projectPath, h))
    ensures forall i :: 0 <= i < |items| ==>
              TestCase(TestName(items[i], projectPath, h), h.parseCaseAttributes(items[i]))
                in SortBy(TestCases(items, projectPath, h), TestCaseName)
  {
    var cases := TestCases(items, projectPath, h);
    SortBySortedPermutation(cases, TestCaseName);
    var sorted := SortBy(cases, TestCaseName);
    forall i | 0 <= i < |items|
      ensures TestCase(TestName(items[i], projectPath, h), h.parseCaseAttributes(items[i])) in sorted
    {
      var c := cases[i];
      assert c in multiset(cases);
      assert c in multiset(sorted);
    }
  }

  lemma {:induction false} InvalidSelectorErrorsNotCollectionErrors(errs: seq<LoadError>, key: string)
    requires forall i :: 0 <= i < |errs| ==> errs[i].name != [] && errs[i].name[0] == 'i'
    ensures WithKey(errs, LoadErrorName, CollectionErrorName(key)) == []
  {
    if errs != [] {
      assert CollectionErrorName(key)[0] == 'l';
      InvalidSelectorErrorsNotCollectionErrors(errs[1..], key);
    }
  }

  lemma {:induction false} CollectionErrorsWithKey(keys: seq<string>, errors: map<string, string>, key: string)
    requires forall k :: k in keys ==> k in errors
    requires forall i, j :: 0 <= i < j < |keys| ==> keys[i] != keys[j]
    ensures WithKey(CollectionErrors(keys, errors), LoadErrorName, CollectionErrorName(key)) ==
            if key in keys then [LoadError(CollectionErrorName(key), errors[key])] else []
  {
    if keys != [] {
      var n := |keys| - 1;
      var init := keys[..n];
      assert keys == init + [keys[n]];
      CollectionErrorsWithKey(init, errors, key);
      var e := LoadError(CollectionErrorName(keys[n]), errors[keys[n]]);
      WithKeyConcat(CollectionErrors(init, errors), [e], LoadErrorName, CollectionErrorName(key));
      if CollectionErrorName(keys[n]) == CollectionErrorName(key) {
        CollectionErrorNameInjective(keys[n], key);
        assert key !in init;
      }
    }
  }

  /**
   * The report's load errors: sorted by name, one per rejected selector plus
   * one per recorded failure; each recorded failure appears exactly once under
   * its own name, carrying its traceback.
   */
  lemma ReportedLoadErrors(workspace: string, selectors: seq<string>, existing: set<string>, keys: seq<string>, errors: map<string, string>)
    requires forall k :: k in keys ==> k in errors
    requires forall i, j :: 0 <= i < j < |keys| ==> keys[i] != keys[j]
    ensures SortedBy(SortBy(InvalidSelectorErrors(workspace, selectors, existing) + CollectionErrors(keys, errors), LoadErrorName), LoadErrorName)
    ensures |SortBy(InvalidSelectorErrors(workspace, selectors, existing) + CollectionErrors(keys, errors), LoadErrorName)|
            == |RejectedSelectors(selectors, existing)| + |keys|
    ensures forall k :: k in keys ==>
              WithKey(SortBy(InvalidSelectorErrors(workspace, selectors, existing) + CollectionErrors(keys, errors), LoadErrorName),
                      LoadErrorName, CollectionErrorName(k))
              == [LoadError(CollectionErrorName(k), errors[k])]
  {
    var invalid := InvalidSelectorErrors(workspace, selectors, existing);
    var collection := CollectionErrors(keys, errors);
    SortBySortedPermutation(invalid + collection, LoadErrorName);
    SelectorFilterPartition(selectors, existing);
    InvalidSelectorErrorsOfRejected(workspace, selectors, existing);
    forall i | 0 <= i < |invalid|
      ensures invalid[i].name != [] && invalid[i].name[0] == 'i'
    {
      var x := RejectedSelectors(selectors, existing)[i];
      assert invalid[i].name == "invalid selector [" + x + "]";
    }
    forall k | k in keys
      ensures WithKey(SortBy(invalid + collection, LoadErrorName), LoadErrorName, CollectionErrorName(k))
              == [LoadError(CollectionErrorName(k), errors[k])]
    {
      SortByStable(invalid + collection, LoadErrorName, CollectionErrorName(k));
      WithKeyConcat(invalid, collection, LoadErrorName, CollectionErrorName(k));
      InvalidSelectorErrorsNotCollectionErrors(invalid, k);
      CollectionErrorsWithKey(keys, errors, k);
    }
  }
}
