/**
 * The records the collector reads and writes: the discovery request, the
 * runner's collected nodes and collection reports, and the report it
 * builds (test cases and load errors).
 */
module Entities {

  /** A Python value that may be `None`. */
  datatype Option<T> = None | Some(value: T)

  /** Whether a Python object has an attribute (`hasattr`), and its value when it does. */
  datatype Attr<T> = Absent | Present(value: T)

  /** The attributes parsed from a test case (a `str` to `str` dictionary). */
  type Attributes = map<string, string>

  /** The discovery request: the project root and the selectors to load. */
  datatype EntryParam = EntryParam(projectPath: string, testSelectors: seq<string>)

  /** `item.location`: the file, the line (if known) and the dotted test name. */
  datatype Location = Location(file: string, line: Option<nat>, domain: string)

  /**
   * A collected test item. `path` and `cls` are absent on items that do not
   * carry them; `cls` holds the enclosing class's name, or `None` for a
   * module-level test function.
   */
  datatype Item = Item(
    path: Attr<string>,
    cls: Attr<Option<string>>,
    name: string,
    nodeid: Attr<string>,
    location: Location)

  /** An element of the list the runner hands to the modify-items hook: a test item or a collector node. */
  datatype Node = ItemNode(item: Item) | CollectorNode(nodeid: string)

  /** The runner's report on collecting one file. */
  datatype CollectReport = CollectReport(failed: bool, fspath: string)

  /** One discovered test of the report. */
  datatype TestCase = TestCase(name: string, attributes: Attributes)

  /** One load failure of the report. */
  datatype LoadError = LoadError(name: string, message: string)

  function TestCaseName(t: TestCase): string { t.name }

  function LoadErrorName(e: LoadError): string { e.name }

  /** The report being assembled; its two lists are extended and sorted in place. */
  class LoadResult {
    var tests: seq<TestCase>
    var loadErrors: seq<LoadError>

    constructor (tests: seq<TestCase>, loadErrors: seq<LoadError>)
      ensures this.tests == tests && this.loadErrors == loadErrors
    {
      this.tests := tests;
      this.loadErrors := loadErrors;
    }
  }
}
