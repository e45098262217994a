/**
 * The four entry points of the printing front end, each as the `Policy` its source file
 * spells out, and what follows for each of them.
 */
module Scripts {
  import opened Wrappers
  import opened Text
  import opened Config
  import opened Filters
  import opened Dispatch

  /** The packaged executor: string defaults, optional filters, the file is opened and the loop goes on. */
  const Executor := Policy(Str("false"), Str("false"), Str("true"), EitherOptional, AsStored, [StartFile], false, false)

  /** The rewritten executor: boolean defaults and a printer setting that must be a string. */
  const NewExecutor := Policy(Bool(false), Bool(false), Bool(true), EitherOptional, StringOrDefault, [StartFile], false, false)

  /** The legacy stand-alone script: checks Ghostscript first, opens the file twice and then exits. */
  const LegacyScript := Policy(Str("false"), Str("false"), Str("true"), EitherOptional, AsStored, [StartFile, ShellStart], true, true)

  /** The oldest script: checks Ghostscript first and requires both filters to be set. */
  const OldestScript := Policy(Str("false"), Str("false"), Str("true"), BothRequired, AsStored, [ShellStart], false, true)

  /** With a string default of "false", a section that says nothing at all is active, matches every
      file and prints it through the PDF reader on the default printer. */
  lemma BareSectionPrints(p: Policy, fileName: string, dp: string)
    requires p == Executor || p == LegacyScript
    ensures Judge(p, fileName, map[], dp) == Print(PrintReader(Str(dp)))
  {
    assert Truthy(Str("false"));
  }

  /** Consequently a bare section placed first makes the executor print every file it is given. */
  lemma {:induction false} BareFirstSectionPrintsEverything(fileName: string, name: string, rest: Config, dp: string)
    ensures Scan(Executor, fileName, [(name, map[])] + rest, dp) == Outcome([PrintReader(Str(dp))], Exit(0))
  {
    BareSectionPrints(Executor, fileName, dp);
  }

  /** The rewritten executor treats a missing `active` setting as inactive. */
  lemma NewExecutorSkipsUnsetActive(fileName: string, sec: Section, dp: string)
    requires "active" !in sec
    ensures Judge(NewExecutor, fileName, sec, dp) == Skip
  {
  }

  /** The rewritten executor treats a missing `print` setting as "open only". */
  lemma NewExecutorOpensUnsetPrint(fileName: string, sec: Section, dp: string)
    requires Truthy(Get(sec, "active", Null)) && "print" !in sec
    requires Get(sec, "prefix", Null).Str? || !Truthy(Get(sec, "prefix", Null))
    requires Get(sec, "suffix", Null).Str? || !Truthy(Get(sec, "suffix", Null))
    ensures Judge(NewExecutor, fileName, sec, dp) ==
      if Matches(EitherOptional, fileName, sec) == Some(true) then Open else Skip
  {
  }

  /** The rewritten executor always hands a string to the printing routines. */
  lemma NewExecutorPrinterIsString(fileName: string, sec: Section, dp: string)
    ensures var v := Judge(NewExecutor, fileName, sec, dp);
      v.Print? ==> v.action.printer.Str? && (!Get(sec, "printer", Null).Str? ==> v.action.printer == Str(dp))
  {
  }

  /** On the sections the configuration editor writes (the three switches stored as booleans, the
      printer as a string), the packaged and the rewritten executor decide alike. */
  lemma ExecutorsAgreeOnEditedSections(fileName: string, sec: Section, dp: string)
    requires "active" in sec && sec["active"].Bool?
    requires "print" in sec && sec["print"].Bool?
    requires "show" in sec && sec["show"].Bool?
    requires "printer" in sec ==> sec["printer"].Str?
    ensures Judge(Executor, fileName, sec, dp) == Judge(NewExecutor, fileName, sec, dp)
  {
  }

  /** The oldest script never acts on a section that lacks a prefix or a suffix. */
  lemma OldestScriptNeedsBothFilters(fileName: string, sec: Section, dp: string)
    requires !Truthy(Get(sec, "prefix", Null)) || !Truthy(Get(sec, "suffix", Null))
    requires Get(sec, "prefix", Null).Str? || !Truthy(Get(sec, "prefix", Null))
    ensures Judge(OldestScript, fileName, sec, dp) == Skip
  {
  }

  /** The legacy script does one thing per run: one print, or opening the file once each way. */
  lemma LegacyScriptActsOnce(env: Environment, argv: seq<string>)
    ensures var o := Run(LegacyScript, env, argv);
      o.trace == [] || o.trace == [StartFile, ShellStart] || (|o.trace| == 1 && IsPrint(o.trace[0]))
  {
    if env.ghostscriptLoads && |argv| == 2 && argv[1] != "" && env.fileExists(argv[1]) && env.config.Some? {
      ScanOneSectionActs(LegacyScript, env.baseName(argv[1]), env.config.value, env.defaultPrinter);
    }
  }

  /** In the executors, one file may be opened by several sections, but a print is always the
      last action and ends the run with exit code 0. */
  lemma ExecutorsPrintLast(p: Policy, env: Environment, argv: seq<string>)
    requires p == Executor || p == NewExecutor || p == OldestScript
    ensures PrintOnlyLast(Run(p, env, argv))
  {
    if !(p.ghostscriptGuard && !env.ghostscriptLoads) && |argv| == 2 && argv[1] != "" &&
       env.fileExists(argv[1]) && env.config.Some? {
      ScanPrintOnlyLast(p, env.baseName(argv[1]), env.config.value, env.defaultPrinter);
    }
  }

  /** The case of tests/execute_test.py:341-382, the packaged executor on a section that only shows the
      file: the file is opened once and the program does not exit. */
  lemma ExecutorShowOnlyExample(dp: string)
    ensures var sec := map["active" := Bool(true), "prefix" := Str("test_"), "print" := Bool(false), "printer" := Str("Test Printer")];
      var env := Environment(_ => true, s => s, Some([("Test Section", sec)]), dp, true);
      Run(Executor, env, ["auto_print", "test_file.pdf"]) == Outcome([StartFile], FellThrough)
  {
    assert StartsWith("test_file.pdf", "test_");
  }
}
