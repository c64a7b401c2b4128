/**
 The report (`sfTestsToXUnitOutput`): the runs in the order they were added,
 a document that receives a single `testsuites` root the first time it is
 generated, and the checks made on the target path before the document is
 written. The filesystem is a value listing which paths exist, which are
 directories and which are writable.
 */
module Report {
  import opened Wrappers
  import opened Strings
  import opened Xml
  import opened TestRuns

  /** Target path, runs in the order they were added, and the document's top-level nodes. */
  datatype Output = Output(outputPath: string, tests: seq<TestRun>, document: seq<Element>)

  /** The constructor: no runs yet and an empty document. */
  function NewOutput(outputPath: string): (o: Output)
    ensures o.outputPath == outputPath && o.tests == [] && o.document == []
    ensures WellFormed(o)
  {
    Output(outputPath, [], [])
  }

  /** The document is empty or holds just the `testsuites` root. */
  predicate WellFormed(o: Output)
  {
    |o.document| == 0 || (|o.document| == 1 && o.document[0].name == "testsuites")
  }

  /** addTest: the run goes after every run added before it; the document is untouched. */
  function AddTest(o: Output, run: TestRun): (r: Output)
    ensures |r.tests| == |o.tests| + 1 && r.tests[..|o.tests|] == o.tests
    ensures r.tests[|o.tests|] == run
    ensures r.outputPath == o.outputPath && r.document == o.document
    ensures WellFormed(o) ==> WellFormed(r)
  {
    o.(tests := o.tests + [run])
  }

  /** The runs that contribute a suite: those whose total is positive, in order. */
  function Included(tests: seq<TestRun>): (r: seq<TestRun>)
    ensures |r| <= |tests|
    ensures forall run :: run in r <==> run in tests && run.TotalTestCases() > 0
  {
    if |tests| == 0 then []
    else
      var init := tests[..|tests| - 1];
      var run := tests[|tests| - 1];
      assert tests == init + [run];
      Included(init) + (if run.TotalTestCases() > 0 then [run] else [])
  }

  /**
   The `testsuites` root generateDOM builds: one `testsuite` per run with a
   positive total, in the order the runs were added.
   */
  function Suites(tests: seq<TestRun>): (e: Element)
    ensures e.name == "testsuites" && e.attributes == [] && e.text == ""
    ensures |e.children| == |Included(tests)|
    ensures forall i :: 0 <= i < |e.children| ==> e.children[i] == Included(tests)[i].ToXml()
  {
    var runs := Included(tests);
    Element("testsuites", [], "", seq(|runs|, i requires 0 <= i < |runs| => runs[i].ToXml()))
  }

  /**
   generateDOM: a document that already has a node is returned as it is;
   an empty one receives the `testsuites` root for the runs added so far.
   */
  function GenerateDom(o: Output): (r: Output)
    ensures r.outputPath == o.outputPath && r.tests == o.tests
    ensures |o.document| > 0 ==> r == o
    ensures |o.document| == 0 ==> r.document == [Suites(o.tests)]
    ensures WellFormed(o) ==> WellFormed(r) && |r.document| == 1
  {
    if |o.document| > 0 then o else o.(document := [Suites(o.tests)])
  }

  // ---------------------------------------------------------------------
  // Saving
  // ---------------------------------------------------------------------

  /** The filesystem queries the save makes, answered by a snapshot. */
  datatype FileSystem = FileSystem(existing: set<string>, directories: set<string>, writable: set<string>)

  /** `file_exists`: never true of the empty path. */
  predicate Exists(fs: FileSystem, path: string)
  {
    path != "" && path in fs.existing
  }

  /** The three exceptions the save can raise before writing. */
  datatype SaveError =
    | FolderUndetermined  // "The target folder could not be determined."
    | FolderNotWritable   // "The target folder can not be written to."
    | FileNotWritable     // "The target output file can not be written to."

  /** The path with its base name cut off the end, by length. */
  function Folder(path: string): (f: string)
    ensures |f| == |path| - |Basename(path)|
    ensures f == path[..|f|]
  {
    path[..|path| - |Basename(path)|]
  }

  /**
   The checks of saveDOMDocumentToFile: for a missing file, its folder must
   exist as a directory and then be writable; for an existing file, the file
   itself must be writable.
   */
  function CheckTarget(path: string, fs: FileSystem): (r: Option<SaveError>)
    ensures r == Some(FileNotWritable) ==> Exists(fs, path)
    ensures r.Some? && r.value != FileNotWritable ==> !Exists(fs, path)
    ensures r == Some(FolderUndetermined) <==> !Exists(fs, path) && (!Exists(fs, Folder(path)) || Folder(path) !in fs.directories)
    ensures r.None? <==>
      if Exists(fs, path) then path in fs.writable
      else Exists(fs, Folder(path)) && Folder(path) in fs.directories && Folder(path) in fs.writable
  {
    if !Exists(fs, path) then
      var folder := Folder(path);
      if !Exists(fs, folder) || folder !in fs.directories then Some(FolderUndetermined)
      else if folder !in fs.writable then Some(FolderNotWritable)
      else None
    else if path !in fs.writable then Some(FileNotWritable)
    else None
  }

  /** What a save does: raise one of the errors, or attempt the write, whose outcome is never reported. */
  datatype Saved = Raised(error: SaveError) | Attempted(document: seq<Element>, written: bool)

  /**
   saveDOMDocumentToFile: raises exactly when a check fails; otherwise the
   document is handed to the write, and a failing write is swallowed.
   */
  function SaveDocument(path: string, document: seq<Element>, fs: FileSystem, writeSucceeds: bool): (r: Saved)
    ensures r.Raised? <==> CheckTarget(path, fs).Some?
    ensures r.Raised? ==> r.error == CheckTarget(path, fs).value
    ensures r.Attempted? ==> r.document == document && r.written == writeSucceeds
  {
    match CheckTarget(path, fs)
    case Some(error) => Raised(error)
    case None => Attempted(document, writeSucceeds)
  }

  /** output(): generate the document, then save it to the configured path. */
  function WriteOutput(o: Output, fs: FileSystem, writeSucceeds: bool): (r: (Output, Saved))
    ensures r.0 == GenerateDom(o)
    ensures r.1.Raised? <==> CheckTarget(o.outputPath, fs).Some?
    ensures r.1.Attempted? ==> r.1.document == GenerateDom(o).document
  {
    var generated := GenerateDom(o);
    (generated, SaveDocument(o.outputPath, generated.document, fs, writeSucceeds))
  }

  // ---------------------------------------------------------------------
  // Properties
  // ---------------------------------------------------------------------

  /** The output after adding each of `runs` in turn. */
  function AddAll(o: Output, runs: seq<TestRun>): Output
  {
    if |runs| == 0 then o else AddTest(AddAll(o, runs[..|runs| - 1]), runs[|runs| - 1])
  }

  /** Runs added one after another are kept in the order they were added. */
  lemma {:induction false} TestsInAddOrder(outputPath: string, runs: seq<TestRun>)
    ensures AddAll(NewOutput(outputPath), runs).tests == runs
  {
    if |runs| > 0 {
      TestsInAddOrder(outputPath, runs[..|runs| - 1]);
      assert runs[..|runs| - 1] + [runs[|runs| - 1]] == runs;
    }
  }

  /**
   Suites of runs added later come after the suites of every earlier run:
   the kept runs of two batches added one after the other are the kept runs
   of the first batch followed by those of the second.
   */
  lemma {:induction false} IncludedConcat(a: seq<TestRun>, b: seq<TestRun>)
    ensures Included(a + b) == Included(a) + Included(b)
  {
    if |b| == 0 {
      assert a + b == a;
    } else {
      var init := b[..|b| - 1];
      var run := b[|b| - 1];
      var tail := if run.TotalTestCases() > 0 then [run] else [];
      assert a + b == (a + init) + [run];
      assert b == init + [run];
      calc {
        Included(a + b);
        { IncludedSnoc(a + init, run); }
        Included(a + init) + tail;
        { IncludedConcat(a, init); }
        Included(a) + Included(init) + tail;
        Included(a) + (Included(init) + tail);
        { IncludedSnoc(init, run); }
        Included(a) + Included(b);
      }
    }
  }

  lemma IncludedSnoc(tests: seq<TestRun>, run: TestRun)
    ensures Included(tests + [run]) == Included(tests) + (if run.TotalTestCases() > 0 then [run] else [])
  {
    assert (tests + [run])[..|tests|] == tests;
  }

  /** The runs kept are exactly those with a positive total, counted position by position. */
  lemma {:induction false} IncludedCount(tests: seq<TestRun>)
    ensures |Included(tests)| == CountWhere(tests, (run: TestRun) => run.TotalTestCases() > 0)
  {
    if |tests| > 0 {
      var n := |tests| - 1;
      IncludedCount(tests[..n]);
      assert tests == tests[..n] + [tests[n]];
      IncludedSnoc(tests[..n], tests[n]);
      CountWhereSnoc(tests[..n], tests[n], (run: TestRun) => run.TotalTestCases() > 0);
    }
  }

  /** No suite in the report says it has zero tests. */
  lemma NoEmptySuite(tests: seq<TestRun>)
    ensures forall i :: 0 <= i < |Suites(tests).children| ==>
      Suites(tests).children[i].attributes[1].value != Number(0)
  {
    forall i | 0 <= i < |Suites(tests).children|
      ensures Suites(tests).children[i].attributes[1].value != Number(0)
    {
      assert Included(tests)[i] in Included(tests);
      SuiteTestsAttribute(Included(tests)[i]);
    }
  }

  /** generateDOM is idempotent. */
  lemma GenerateDomIdempotent(o: Output)
    ensures GenerateDom(GenerateDom(o)) == GenerateDom(o)
  {
  }

  /** Runs added after the document was generated are not reflected in it. */
  lemma LaterRunsNotReflected(o: Output, runs: seq<TestRun>)
    ensures GenerateDom(AddAll(GenerateDom(o), runs)).document == GenerateDom(o).document
  {
    AddAllKeepsDocument(GenerateDom(o), runs);
  }

  lemma {:induction false} AddAllKeepsDocument(o: Output, runs: seq<TestRun>)
    ensures AddAll(o, runs).document == o.document
  {
    if |runs| > 0 {
      AddAllKeepsDocument(o, runs[..|runs| - 1]);
    }
  }

  /**
   Generating, adding a batch of runs and generating again leaves a
   well-formed document with the single `testsuites` root.
   */
  lemma SingleRoot(o: Output, runs: seq<TestRun>)
    requires WellFormed(o)
    ensures |GenerateDom(AddAll(GenerateDom(o), runs)).document| == 1
    ensures GenerateDom(AddAll(GenerateDom(o), runs)).document[0].name == "testsuites"
  {
    LaterRunsNotReflected(o, runs);
  }

  /** For a file name in a folder, the folder the save checks is that folder. */
  lemma FolderOfFile(dir: string, name: string)
    requires |dir| == 0 || dir[|dir| - 1] == '/'
    requires '/' !in name && |name| > 0
    ensures Folder(dir + name) == dir
  {
    BasenameSplits(dir, name);
  }

  /**
   A bare file name that does not exist yet has the empty folder, which
   never exists: the save reports that the folder could not be determined.
   */
  lemma BareMissingNameUndetermined(path: string, fs: FileSystem)
    requires '/' !in path && |path| > 0
    requires !Exists(fs, path)
    ensures CheckTarget(path, fs) == Some(FolderUndetermined)
  {
    FolderOfFile("", path);
    assert "" + path == path;
  }

  /** For a missing file the file's own writability is never consulted. */
  lemma MissingFileIgnoresFileWritability(path: string, fs: FileSystem)
    requires !Exists(fs, path)
    ensures CheckTarget(path, fs) == CheckTarget(path, fs.(writable := fs.writable + {path}))
    ensures CheckTarget(path, fs) == CheckTarget(path, fs.(writable := fs.writable - {path}))
  {
  }

  /** For an existing file only its own writability matters. */
  lemma ExistingFileOnlyFileWritability(path: string, fs: FileSystem, other: FileSystem)
    requires Exists(fs, path) && Exists(other, path)
    requires path in fs.writable <==> path in other.writable
    ensures CheckTarget(path, fs) == CheckTarget(path, other)
  {
  }

  /** The folder's existence is checked before its writability. */
  lemma UndeterminedBeforeNotWritable(path: string, fs: FileSystem)
    requires !Exists(fs, path) && Folder(path) !in fs.directories
    ensures CheckTarget(path, fs) == Some(FolderUndetermined)
  {
  }

  /** Whether the write itself succeeds never changes whether the save raises. */
  lemma WriteFailureNotRaised(path: string, document: seq<Element>, fs: FileSystem)
    ensures SaveDocument(path, document, fs, false).Raised? == SaveDocument(path, document, fs, true).Raised?
    ensures SaveDocument(path, document, fs, false).Attempted? ==> !SaveDocument(path, document, fs, false).written
  {
  }
}
