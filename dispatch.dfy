/**
 * Rule selection: how the printing front end picks what to do with the file it is given.
 *
 * The four entry points (the packaged executor, its newer rewrite and the two legacy
 * scripts) share one algorithm and differ only in a handful of constants and details,
 * gathered here in a `Policy`.  After the argument and environment checks, the sections
 * of the configuration are visited in order; an inactive section or one whose filename
 * filter rejects the file is skipped, a matching section that prints ends the program
 * with exit code 0, and a matching section that only shows the file opens it and,
 * depending on the entry point, either ends the program or goes on with the next section.
 *
 * Everything the program does to the outside world is recorded as an `Action`, in order.
 */
module Dispatch {
  import opened Wrappers
  import opened Text
  import opened Config
  import opened Filters

  /** An effect on the outside world. */
  datatype Action =
    | StartFile                   // os.startfile: open with the associated application
    | ShellStart                  // os.system("start ..."): open through the shell
    | PrintReader(printer: Value) // print through the PDF reader, showing the document
    | PrintGhost(printer: Value)  // print silently through Ghostscript

  predicate IsPrint(a: Action) {
    a.PrintReader? || a.PrintGhost?
  }

  /** How a run ends: `sys.exit(code)`, the end of the section loop, or an uncaught `TypeError`. */
  datatype End = Exit(code: int) | FellThrough | Raised

  datatype Outcome = Outcome(trace: seq<Action>, end: End)

  /** How the filename filter combines prefix and suffix. */
  datatype FilterRule = EitherOptional | BothRequired

  /** Which printer a printing section uses when its `printer` setting is not a string. */
  datatype PrinterRule = AsStored | StringOrDefault

  /** What distinguishes the entry points from one another. */
  datatype Policy = Policy(
    activeDefault: Value,     // default of `section.get("active", ...)`
    printDefault: Value,      // default of `section.get("print", ...)`
    showDefault: Value,       // default of `section.get("show", ...)`
    filterRule: FilterRule,
    printerRule: PrinterRule,
    openActions: seq<Action>, // what a matching section that does not print does
    exitAfterOpen: bool,      // whether the program ends after opening the file
    ghostscriptGuard: bool)   // whether a failing `import ghostscript` ends the program first

  /** What the program observes of its environment. */
  datatype Environment = Environment(
    fileExists: string -> bool,
    baseName: string -> string,
    config: Option<Config>,   // None when reading or parsing the configuration file fails
    defaultPrinter: string,
    ghostscriptLoads: bool)

  /** A filter setting as the filter check sees it: `None` and falsy values mean "no filter",
      a string is the filter text, and a truthy non-string makes `startswith` raise (`None` here). */
  function FilterArg(v: Value): (r: Option<Option<string>>)
    ensures r.None? <==> Truthy(v) && !v.Str?
    ensures v.Str? ==> r == Some(Some(v.s))
  {
    match v
    case Str(s) => Some(Some(s))
    case _ => if Truthy(v) then None else Some(None)
  }

  /** The prefix half of the check, which Python evaluates first. */
  function PrefixPasses(rule: FilterRule, fileName: string, prefix: Option<string>): bool {
    match rule
    case EitherOptional => !IsSet(prefix) || StartsWith(fileName, prefix.value)
    case BothRequired => IsSet(prefix) && StartsWith(fileName, prefix.value)
  }

  /** The whole check on two well-typed filters. */
  function Provision(rule: FilterRule, fileName: string, prefix: Option<string>, suffix: Option<string>): bool {
    match rule
    case EitherOptional => ProvisionFulfilled(fileName, prefix, suffix)
    case BothRequired => ProvisionBothRequired(fileName, prefix, suffix)
  }

  /** `provision_fulfilled(name, sec.get("prefix", None), sec.get("suffix", None))`; `None` when it raises. */
  function Matches(rule: FilterRule, fileName: string, sec: Section): (r: Option<bool>)
    ensures (Get(sec, "prefix", Null).Str? || !Truthy(Get(sec, "prefix", Null))) &&
            (Get(sec, "suffix", Null).Str? || !Truthy(Get(sec, "suffix", Null))) ==>
              r == Some(Provision(rule, fileName, FilterArg(Get(sec, "prefix", Null)).value, FilterArg(Get(sec, "suffix", Null)).value))
  {
    match FilterArg(Get(sec, "prefix", Null))
    case None => None
    case Some(prefix) =>
      if !PrefixPasses(rule, fileName, prefix) then Some(false)
      else match FilterArg(Get(sec, "suffix", Null))
        case None => None
        case Some(suffix) => Some(Provision(rule, fileName, prefix, suffix))
  }

  /** The printer a printing section sends the file to: its own `printer` setting when it has one (in
      the rewritten executor, only when that setting is a string), the default printer otherwise. */
  function PrinterFor(p: Policy, sec: Section, defaultPrinter: string): (r: Value)
    ensures p.printerRule.StringOrDefault? ==> r.Str?
    ensures "printer" !in sec ==> r == Str(defaultPrinter)
    ensures p.printerRule.AsStored? && "printer" in sec ==> r == sec["printer"]
    ensures "printer" in sec && sec["printer"].Str? ==> r == sec["printer"]
    ensures p.printerRule.StringOrDefault? && !("printer" in sec && sec["printer"].Str?) ==> r == Str(defaultPrinter)
  {
    var stored := Get(sec, "printer", Str(defaultPrinter));
    match p.printerRule
    case AsStored => stored
    case StringOrDefault => if stored.Str? then stored else Str(defaultPrinter)
  }

  /** What one section does with the file. */
  datatype Verdict = Skip | Open | Print(action: Action) | Fail

  function Judge(p: Policy, fileName: string, sec: Section, defaultPrinter: string): (v: Verdict)
    ensures v.Print? ==> IsPrint(v.action)
    ensures !v.Skip? ==> Truthy(Get(sec, "active", p.activeDefault))
    ensures v.Print? ==> Truthy(Get(sec, "print", p.printDefault)) && Matches(p.filterRule, fileName, sec) == Some(true)
    ensures v.Open? ==> !Truthy(Get(sec, "print", p.printDefault)) && Matches(p.filterRule, fileName, sec) == Some(true)
  {
    if !Truthy(Get(sec, "active", p.activeDefault)) then Skip
    else match Matches(p.filterRule, fileName, sec)
      case None => Fail
      case Some(false) => Skip
      case Some(true) =>
        if Truthy(Get(sec, "print", p.printDefault)) then
          var printer := PrinterFor(p, sec, defaultPrinter);
          Print(if Truthy(Get(sec, "show", p.showDefault)) then PrintReader(printer) else PrintGhost(printer))
        else Open
  }

  /** The rule one section applies, in both directions: it is skipped exactly when it is inactive or its
      filter rejects the file; it raises exactly when it is active and a filter is a truthy non-string;
      an active, matching section prints when `print` is truthy (through the reader when `show` is
      truthy, silently otherwise, on its printer) and opens the file when it is not. */
  lemma JudgeDecides(p: Policy, fileName: string, sec: Section, defaultPrinter: string)
    ensures var v := Judge(p, fileName, sec, defaultPrinter);
      var active := Truthy(Get(sec, "active", p.activeDefault));
      var m := Matches(p.filterRule, fileName, sec);
      (v.Skip? <==> !active || m == Some(false)) &&
      (v.Fail? <==> active && m.None?) &&
      (active && m == Some(true) && Truthy(Get(sec, "print", p.printDefault)) ==>
        v == Print(if Truthy(Get(sec, "show", p.showDefault)) then PrintReader(PrinterFor(p, sec, defaultPrinter))
                   else PrintGhost(PrinterFor(p, sec, defaultPrinter)))) &&
      (active && m == Some(true) && !Truthy(Get(sec, "print", p.printDefault)) ==> v == Open)
  {
  }

  /** Whether a verdict ends the section loop. */
  predicate Stops(p: Policy, v: Verdict) {
    v.Print? || v.Fail? || (v.Open? && p.exitAfterOpen)
  }

  function Prepend(t: seq<Action>, o: Outcome): Outcome {
    Outcome(t + o.trace, o.end)
  }

  /** The section loop over `cfg`, as a function of the remaining sections. */
  function Scan(p: Policy, fileName: string, cfg: Config, defaultPrinter: string): (r: Outcome)
    ensures r.end.Exit? ==> r.end.code == 0
    decreases |cfg|
  {
    if cfg == [] then Outcome([], FellThrough)
    else match Judge(p, fileName, cfg[0].1, defaultPrinter)
      case Skip => Scan(p, fileName, cfg[1..], defaultPrinter)
      case Fail => Outcome([], Raised)
      case Print(a) => Outcome([a], Exit(0))
      case Open =>
        if p.exitAfterOpen then Outcome(p.openActions, Exit(0))
        else Prepend(p.openActions, Scan(p, fileName, cfg[1..], defaultPrinter))
  }

  /** A whole run: the start-up checks in the order the program makes them, then the section loop. */
  function Run(p: Policy, env: Environment, argv: seq<string>): (r: Outcome)
    ensures r.end.Exit? && r.end.code != 0 ==> r.trace == []
  {
    if p.ghostscriptGuard && !env.ghostscriptLoads then Outcome([], Exit(-5))
    else if |argv| != 2 then Outcome([], Exit(-1))
    else if |argv| > 2 then Outcome([], Exit(-2))
    else if argv[1] == "" then Outcome([], Exit(-5))
    else if !env.fileExists(argv[1]) then Outcome([], Exit(-3))
    else match env.config
      case None => Outcome([], Exit(-4))
      case Some(cfg) => Scan(p, env.baseName(argv[1]), cfg, env.defaultPrinter)
  }

  /** The entry point as the program runs it, section by section. */
  method RunEntryPoint(p: Policy, env: Environment, argv: seq<string>) returns (trace: seq<Action>, end: End)
    ensures Outcome(trace, end) == Run(p, env, argv)
  {
    trace := [];
    if p.ghostscriptGuard && !env.ghostscriptLoads {
      return trace, Exit(-5);
    }
    if |argv| != 2 {
      return trace, Exit(-1);
    }
    if |argv| > 2 {
      return trace, Exit(-2);
    }
    var path := argv[1];
    if path == "" {
      return trace, Exit(-5);
    }
    var name := env.baseName(path);
    if !env.fileExists(path) {
      return trace, Exit(-3);
    }
    if env.config.None? {
      return trace, Exit(-4);
    }
    var cfg := env.config.value;
    var i := 0;
    while i < |cfg|
      invariant 0 <= i <= |cfg|
      invariant Scan(p, name, cfg, env.defaultPrinter) == Prepend(trace, Scan(p, name, cfg[i..], env.defaultPrinter))
    {
      var sec := cfg[i].1;
      assert cfg[i..][1..] == cfg[i + 1..];
      i := i + 1;
      if !Truthy(Get(sec, "active", p.activeDefault)) {
        continue;
      }
      var provision := Matches(p.filterRule, name, sec);
      if provision.None? {
        return trace, Raised;
      }
      if !provision.value {
        continue;
      }
      if Truthy(Get(sec, "print", p.printDefault)) {
        var printer := PrinterFor(p, sec, env.defaultPrinter);
        if Truthy(Get(sec, "show", p.showDefault)) {
          trace := trace + [PrintReader(printer)];
        } else {
          trace := trace + [PrintGhost(printer)];
        }
        return trace, Exit(0);
      }
      trace := trace + p.openActions;
      if p.exitAfterOpen {
        return trace, Exit(0);
      }
    }
    end := FellThrough;
  }

  // ----- properties of the section loop -----

  /** The loop ends at the first section that stops it, and that section decides how. */
  lemma {:induction false} ScanFirstStopDecides(p: Policy, fileName: string, cfg: Config, dp: string, i: nat)
    requires i < |cfg| && Stops(p, Judge(p, fileName, cfg[i].1, dp))
    requires forall j :: 0 <= j < i ==> !Stops(p, Judge(p, fileName, cfg[j].1, dp))
    ensures var v := Judge(p, fileName, cfg[i].1, dp);
      Scan(p, fileName, cfg, dp).end == (if v.Fail? then Raised else Exit(0))
    ensures var v := Judge(p, fileName, cfg[i].1, dp); var t := Scan(p, fileName, cfg, dp).trace;
      v.Print? ==> |t| > 0 && t[|t| - 1] == v.action
    decreases i
  {
    if i > 0 {
      assert !Stops(p, Judge(p, fileName, cfg[0].1, dp));
      assert cfg[1..][i - 1] == cfg[i];
      assert forall j :: 0 <= j < i - 1 ==> cfg[1..][j] == cfg[j + 1];
      ScanFirstStopDecides(p, fileName, cfg[1..], dp, i - 1);
    }
  }

  /** The loop runs to the end exactly when no section stops it. */
  lemma {:induction false} ScanFallsThroughIffNoStop(p: Policy, fileName: string, cfg: Config, dp: string)
    ensures Scan(p, fileName, cfg, dp).end == FellThrough <==>
      forall j :: 0 <= j < |cfg| ==> !Stops(p, Judge(p, fileName, cfg[j].1, dp))
    decreases |cfg|
  {
    if cfg != [] {
      ScanFallsThroughIffNoStop(p, fileName, cfg[1..], dp);
      if !Stops(p, Judge(p, fileName, cfg[0].1, dp)) {
        assert forall j :: 1 <= j < |cfg| ==> cfg[j] == cfg[1..][j - 1];
      }
    }
  }

  /** A print, if any, is the last action of a run, and it ends the run with exit code 0. */
  predicate PrintOnlyLast(o: Outcome) {
    forall k :: 0 <= k < |o.trace| && IsPrint(o.trace[k]) ==> k == |o.trace| - 1 && o.end == Exit(0)
  }

  /** When opening never prints, the section loop prints at most once, as its very last action. */
  lemma {:induction false} ScanPrintOnlyLast(p: Policy, fileName: string, cfg: Config, dp: string)
    requires forall a :: a in p.openActions ==> !IsPrint(a)
    ensures PrintOnlyLast(Scan(p, fileName, cfg, dp))
    decreases |cfg|
  {
    if cfg != [] {
      ScanPrintOnlyLast(p, fileName, cfg[1..], dp);
      var rest := Scan(p, fileName, cfg[1..], dp);
      var o := Scan(p, fileName, cfg, dp);
      if Judge(p, fileName, cfg[0].1, dp).Open? && !p.exitAfterOpen {
        var n := |p.openActions|;
        assert o.trace == p.openActions + rest.trace && o.end == rest.end;
        assert forall k :: 0 <= k < n ==> o.trace[k] == p.openActions[k] && p.openActions[k] in p.openActions;
        forall k | 0 <= k < |o.trace| && IsPrint(o.trace[k]) ensures k == |o.trace| - 1 && o.end == Exit(0) {
          assert k >= n;
          assert o.trace[k] == rest.trace[k - n];
        }
      } else if Judge(p, fileName, cfg[0].1, dp).Open? {
        assert o.trace == p.openActions;
        assert forall k :: 0 <= k < |o.trace| ==> o.trace[k] in p.openActions;
      }
    }
  }

  /** A section the loop skips can be added anywhere without changing what the run does. */
  lemma {:induction false} ScanIgnoresSkipped(p: Policy, fileName: string, cfg: Config, dp: string, i: nat, e: Entry)
    requires i <= |cfg| && Judge(p, fileName, e.1, dp).Skip?
    ensures Scan(p, fileName, cfg[..i] + [e] + cfg[i..], dp) == Scan(p, fileName, cfg, dp)
    decreases i
  {
    var c := cfg[..i] + [e] + cfg[i..];
    if i == 0 {
      assert c[1..] == cfg;
    } else {
      ScanIgnoresSkipped(p, fileName, cfg[1..], dp, i - 1, e);
      assert c[0] == cfg[0];
      assert c[1..] == cfg[1..][..i - 1] + [e] + cfg[1..][i - 1..];
    }
  }

  /** Without an active section whose filter accepts the file, the run does nothing at all. */
  lemma {:induction false} ScanNoMatchNoAction(p: Policy, fileName: string, cfg: Config, dp: string)
    requires forall j :: 0 <= j < |cfg| ==> Judge(p, fileName, cfg[j].1, dp).Skip?
    ensures Scan(p, fileName, cfg, dp) == Outcome([], FellThrough)
    decreases |cfg|
  {
    if cfg != [] {
      assert Judge(p, fileName, cfg[0].1, dp).Skip?;
      assert forall j :: 0 <= j < |cfg| - 1 ==> cfg[1..][j] == cfg[j + 1];
      ScanNoMatchNoAction(p, fileName, cfg[1..], dp);
    }
  }

  /** When opening ends the program, at most one section ever acts: the trace is that section's. */
  lemma {:induction false} ScanOneSectionActs(p: Policy, fileName: string, cfg: Config, dp: string)
    requires p.exitAfterOpen
    ensures var o := Scan(p, fileName, cfg, dp);
      o.trace == [] || (o.end == Exit(0) && exists j :: (0 <= j < |cfg| &&
        match Judge(p, fileName, cfg[j].1, dp)
        case Print(a) => o.trace == [a]
        case Open => o.trace == p.openActions
        case _ => false))
    decreases |cfg|
  {
    if cfg != [] {
      ScanOneSectionActs(p, fileName, cfg[1..], dp);
      var o := Scan(p, fileName, cfg, dp);
      if Judge(p, fileName, cfg[0].1, dp).Skip? && o.trace != [] {
        var j :| 0 <= j < |cfg| - 1 &&
          match Judge(p, fileName, cfg[1..][j].1, dp)
          case Print(a) => o.trace == [a]
          case Open => o.trace == p.openActions
          case _ => false;
        assert cfg[1..][j] == cfg[j + 1];
      }
    }
  }

  // ----- properties of a whole run -----

  /** The exit code -2 ("too many arguments") is never produced: -1 already covers every wrong count. */
  lemma RunNeverExitsMinusTwo(p: Policy, env: Environment, argv: seq<string>)
    ensures Run(p, env, argv).end != Exit(-2)
  {
  }

  /** Each non-zero exit code stands for one failed start-up check, and such a run does nothing. */
  lemma RunExitCodes(p: Policy, env: Environment, argv: seq<string>)
    ensures var o := Run(p, env, argv);
      o.end.Exit? && o.end.code != 0 ==> o.trace == [] && o.end.code in {-1, -3, -4, -5}
    ensures Run(p, env, argv).end == Exit(-1) <==> !(p.ghostscriptGuard && !env.ghostscriptLoads) && |argv| != 2
    ensures Run(p, env, argv).end == Exit(-3) <==>
      !(p.ghostscriptGuard && !env.ghostscriptLoads) && |argv| == 2 && argv[1] != "" && !env.fileExists(argv[1])
    ensures Run(p, env, argv).end == Exit(-4) <==>
      !(p.ghostscriptGuard && !env.ghostscriptLoads) && |argv| == 2 && argv[1] != "" && env.fileExists(argv[1]) && env.config.None?
  {
  }

  /** Anything done to the file is done to an existing file named by the only argument, after the
      configuration was read. */
  lemma RunActsOnlyOnExistingFile(p: Policy, env: Environment, argv: seq<string>)
    ensures Run(p, env, argv).trace != [] ==>
      |argv| == 2 && argv[1] != "" && env.fileExists(argv[1]) && env.config.Some?
  {
  }
}
