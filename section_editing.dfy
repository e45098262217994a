/**
 * Editing one section: the prefix and suffix filters, the print settings, the show and
 * active switches, and the confirmation loop around them; and choosing the name of a
 * new section.
 *
 * The printers the system knows and its default printer are given as `Printers`; the
 * user's answers are the input lines, as in `Prompt`.
 */
module SectionEditing {
  import opened Wrappers
  import opened Text
  import opened Config
  import opened Prompt

  /** `get_printer_list()` and `get_default_printer()`. */
  datatype Printers = Printers(names: seq<string>, default: string)

  /** The settings the section editor writes. */
  const EditorKeys: set<string> := {"prefix", "suffix", "print", "printer", "show", "active"}

  /** `input(prompt).strip()`: one line, without surrounding blanks. */
  function ReadLine(input: seq<string>): (r: Reply<string>)
    ensures r.Answer? ==> input != [] && r.rest == input[1..]
    ensures r.Raise? ==> input == [] && r.failure == EndOfInput
  {
    if input == [] then Raise(EndOfInput) else Answer(Strip(input[0]), input[1..])
  }

  /** A filter as the editor stores it: a non-empty string without surrounding blanks. */
  predicate IsFilter(v: Value) {
    v.Str? && v.s != [] && !IsSpace(v.s[0]) && !IsSpace(v.s[|v.s| - 1])
  }

  /** Every setting outside `changed` is as it was. */
  ghost predicate Keeps(before: Section, after: Section, changed: set<string>) {
    forall k :: k !in changed ==> (k in after <==> k in before) && (k in before ==> after[k] == before[k])
  }

  /** A line holds something other than blanks. */
  predicate HasText(line: string) {
    exists i :: 0 <= i < |line| && !IsSpace(line[i])
  }

  // ----- the single settings -----

  /** `configure_prefix` / `configure_suffix`: the stripped answer becomes the filter, and a blank
      answer removes it. */
  function ConfigureFilter(sec: Section, key: string, input: seq<string>): (r: Reply<Section>)
    ensures r.Answer? ==> |r.rest| < |input|
  {
    match ReadLine(input)
    case Raise(f) => Raise(f)
    case Answer(text, rest) => Answer(if text != "" then sec[key := Str(text)] else sec - {key}, rest)
  }

  /** The filter is set exactly when the answer holds text, it is then the answer without surrounding
      blanks, and nothing else changes. */
  lemma ConfigureFilterMeaning(sec: Section, key: string, input: seq<string>)
    ensures var r := ConfigureFilter(sec, key, input);
      (r.Raise? <==> input == []) && (r.Raise? ==> r.failure == EndOfInput) &&
      (r.Answer? ==> (r.rest == input[1..] && Keeps(sec, r.value, {key}) &&
        (key in r.value <==> HasText(input[0])) &&
        (key in r.value ==> r.value[key] == Str(Strip(input[0])) && IsFilter(r.value[key]))))
  {
    if input != [] {
      StripMeaning(input[0]);
    }
  }

  const PrintQuestion := "Should the filtered file be printed automatically?"
  const PrinterQuestion := "Please choose a printer to use:"

  /** `configure_print_settings`: whether to print (the current setting, or yes, as default); when
      printing, which printer, with the system's default printer as default; otherwise the default
      printer is stored. */
  function ConfigurePrintSettings(style: Style, printers: Printers, sec: Section, input: seq<string>): (r: Reply<Section>)
    ensures r.Answer? ==> |r.rest| < |input|
  {
    match BoolDecision(style, PrintQuestion, Truthy(Get(sec, "print", Bool(true))), input)
    case Raise(f) => Raise(f)
    case Answer(printing, rest) =>
      var marked := sec["print" := Bool(printing)];
      if printing then
        ChosenIsAnOption(style, PrinterQuestion, printers.names, printers.default, rest);
        match Choose(style, PrinterQuestion, printers.names, printers.default, rest)
        case Raise(f) => Raise(f)
        case Answer(printer, rest') => Answer(marked["printer" := Str(printer)], rest')
      else Answer(marked["printer" := Str(printers.default)], rest)
  }

  /** The print settings the editor leaves behind. */
  predicate PrintSettingsValid(sec: Section, printers: Printers) {
    "print" in sec && sec["print"].Bool? && "printer" in sec && sec["printer"].Str? &&
    (sec["print"].b ==> sec["printer"].s in printers.names) &&
    (!sec["print"].b ==> sec["printer"].s == printers.default)
  }

  /** The printers the system reports are usable for a choice. */
  predicate PrintersUsable(printers: Printers) {
    printers.names != [] && printers.default in printers.names
  }

  /** A printing section gets a printer the system knows, a non-printing one the default printer; nothing
      else changes.  Besides end of input, only an unusable printer list makes it fail, and only when
      printing was chosen. */
  lemma ConfigurePrintSettingsMeaning(style: Style, printers: Printers, sec: Section, input: seq<string>)
    ensures var r := ConfigurePrintSettings(style, printers, sec, input);
      (r.Answer? ==> PrintSettingsValid(r.value, printers) && Keeps(sec, r.value, {"print", "printer"})) &&
      (r.Raise? && r.failure != EndOfInput ==> !PrintersUsable(printers)) &&
      (r.Raise? && !PrintersUsable(printers) && r.failure != EndOfInput ==>
        (printers.names == [] <==> r.failure == EmptyOptions) &&
        (printers.names != [] ==> r.failure == DefaultNotInOptions))
  {
    var d := BoolDecision(style, PrintQuestion, Truthy(Get(sec, "print", Bool(true))), input);
    BoolDecisionMeaning(style, PrintQuestion, Truthy(Get(sec, "print", Bool(true))), input);
    if d.Answer? {
      var marked := sec["print" := Bool(d.value)];
      if d.value {
        ChosenIsAnOption(style, PrinterQuestion, printers.names, printers.default, d.rest);
        var c := Choose(style, PrinterQuestion, printers.names, printers.default, d.rest);
        if c.Answer? {
          assert ConfigurePrintSettings(style, printers, sec, input) == Answer(marked["printer" := Str(c.value)], c.rest);
        } else {
          assert ConfigurePrintSettings(style, printers, sec, input) == Raise(c.failure);
        }
      } else {
        assert ConfigurePrintSettings(style, printers, sec, input) == Answer(marked["printer" := Str(printers.default)], d.rest);
      }
    }
  }

  /** `configure_display_settings` / `configure_activation`: a yes/no switch whose default is the current
      setting, or `fallback` when there is none. */
  function ConfigureSwitch(style: Style, sec: Section, key: string, question: string, fallback: bool, input: seq<string>)
    : (r: Reply<Section>)
    ensures r.Answer? ==> |r.rest| < |input|
  {
    match BoolDecision(style, question, Truthy(Get(sec, key, Bool(fallback))), input)
    case Raise(f) => Raise(f)
    case Answer(b, rest) => Answer(sec[key := Bool(b)], rest)
  }

  /** The switch is stored as a boolean and nothing else changes; only end of input makes it fail. */
  lemma ConfigureSwitchMeaning(style: Style, sec: Section, key: string, question: string, fallback: bool, input: seq<string>)
    requires question != ""
    ensures var r := ConfigureSwitch(style, sec, key, question, fallback, input);
      (r.Raise? ==> r.failure == EndOfInput) &&
      (r.Answer? ==> key in r.value && r.value[key].Bool? && Keeps(sec, r.value, {key}))
  {
    BoolDecisionMeaning(style, question, Truthy(Get(sec, key, Bool(fallback))), input);
  }

  /** A blank answer keeps the current value (as Python reads it), or sets `fallback` when there is none. */
  lemma ConfigureSwitchBlankKeeps(style: Style, sec: Section, key: string, question: string, fallback: bool,
                                  line: string, rest: seq<string>)
    requires question != "" && Strip(line) == ""
    ensures ConfigureSwitch(style, sec, key, question, fallback, [line] + rest) ==
      Answer(sec[key := Bool(Truthy(Get(sec, key, Bool(fallback))))], rest)
  {
    BoolDecisionBlankKeepsDefault(style, question, Truthy(Get(sec, key, Bool(fallback))), line, rest);
  }

  const ShowQuestion := "Should the file be shown by the system default?"
  const ActiveQuestion := "Should the new section be activated?"
  const ConfirmQuestion := "Is the above section correct?"

  // ----- one pass over the section -----

  /** The two filter questions of a pass: prefix, then suffix. */
  function ConfigureFilters(sec: Section, input: seq<string>): (r: Reply<Section>)
    ensures r.Answer? ==> |r.rest| < |input|
  {
    match ConfigureFilter(sec, "prefix", input)
    case Raise(f) => Raise(f)
    case Answer(s1, rest) => ConfigureFilter(s1, "suffix", rest)
  }

  /** The two switches of a pass: show (default no), then active (default yes). */
  function ConfigureSwitches(style: Style, sec: Section, input: seq<string>): (r: Reply<Section>)
    ensures r.Answer? ==> |r.rest| < |input|
  {
    match ConfigureSwitch(style, sec, "show", ShowQuestion, false, input)
    case Raise(f) => Raise(f)
    case Answer(s1, rest) => ConfigureSwitch(style, s1, "active", ActiveQuestion, true, rest)
  }

  /** One pass of `edit_section`: the filters, the print settings, then the switches. */
  function EditPass(style: Style, printers: Printers, sec: Section, input: seq<string>): (r: Reply<Section>)
    ensures r.Answer? ==> |r.rest| < |input|
  {
    match ConfigureFilters(sec, input)
    case Raise(f) => Raise(f)
    case Answer(s1, in1) =>
      match ConfigurePrintSettings(style, printers, s1, in1)
      case Raise(f) => Raise(f)
      case Answer(s2, in2) => ConfigureSwitches(style, s2, in2)
  }

  /** Valid filters: each one present is a non-empty string without surrounding blanks. */
  predicate FiltersValid(sec: Section) {
    ("prefix" in sec ==> IsFilter(sec["prefix"])) && ("suffix" in sec ==> IsFilter(sec["suffix"]))
  }

  /** A section the way the editor leaves it: valid filters, print settings, and both switches as booleans. */
  predicate EditedSection(sec: Section, printers: Printers) {
    FiltersValid(sec) && PrintSettingsValid(sec, printers) &&
    "show" in sec && sec["show"].Bool? &&
    "active" in sec && sec["active"].Bool?
  }

  lemma ConfigureFiltersMeaning(sec: Section, input: seq<string>)
    ensures var r := ConfigureFilters(sec, input);
      (r.Raise? ==> r.failure == EndOfInput) &&
      (r.Answer? ==> FiltersValid(r.value) && Keeps(sec, r.value, {"prefix", "suffix"}))
  {
    ConfigureFilterMeaning(sec, "prefix", input);
    var a1 := ConfigureFilter(sec, "prefix", input);
    if a1.Answer? {
      ConfigureFilterMeaning(a1.value, "suffix", a1.rest);
    }
  }

  lemma ConfigureSwitchesMeaning(style: Style, sec: Section, input: seq<string>)
    ensures var r := ConfigureSwitches(style, sec, input);
      (r.Raise? ==> r.failure == EndOfInput) &&
      (r.Answer? ==> ("show" in r.value && r.value["show"].Bool? && "active" in r.value && r.value["active"].Bool? &&
        Keeps(sec, r.value, {"show", "active"})))
  {
    ConfigureSwitchMeaning(style, sec, "show", ShowQuestion, false, input);
    var a1 := ConfigureSwitch(style, sec, "show", ShowQuestion, false, input);
    if a1.Answer? {
      ConfigureSwitchMeaning(style, a1.value, "active", ActiveQuestion, true, a1.rest);
    }
  }

  /** After one pass the section is well formed, settings the editor does not manage are kept, and a
      failure is end of input or an unusable printer list. */
  lemma EditPassMeaning(style: Style, printers: Printers, sec: Section, input: seq<string>)
    ensures var r := EditPass(style, printers, sec, input);
      (r.Answer? ==> EditedSection(r.value, printers) && Keeps(sec, r.value, EditorKeys)) &&
      (r.Raise? ==> r.failure == EndOfInput || !PrintersUsable(printers))
  {
    ConfigureFiltersMeaning(sec, input);
    var a1 := ConfigureFilters(sec, input);
    if a1.Answer? {
      ConfigurePrintSettingsMeaning(style, printers, a1.value, a1.rest);
      var a2 := ConfigurePrintSettings(style, printers, a1.value, a1.rest);
      if a2.Answer? {
        ConfigureSwitchesMeaning(style, a2.value, a2.rest);
        var a3 := ConfigureSwitches(style, a2.value, a2.rest);
        assert EditPass(style, printers, sec, input) == a3;
        if a3.Answer? {
          KeepsChain(sec, a1.value, a2.value, a3.value);
          FiltersKept(a1.value, a2.value, a3.value);
          PrintSettingsKept(a2.value, a3.value, printers);
        }
      } else {
        assert EditPass(style, printers, sec, input) == Raise(a2.failure);
      }
    } else {
      assert EditPass(style, printers, sec, input) == Raise(a1.failure);
    }
  }

  /** The editor's six setting names are pairwise different. */
  lemma KeyNamesDistinct()
    ensures "prefix" !in {"print", "printer"} && "suffix" !in {"print", "printer"}
    ensures "prefix" !in {"show", "active"} && "suffix" !in {"show", "active"}
    ensures "print" !in {"show", "active"} && "printer" !in {"show", "active"}
  {
    assert "prefix"[0] == 'p' && "prefix"[2] == 'e' && "suffix"[0] == 's' && "suffix"[1] == 'u';
    assert "print"[0] == 'p' && "printer"[0] == 'p' && "show"[0] == 's' && "show"[1] == 'h' && "active"[0] == 'a';
    assert "print"[2] == 'i' && "printer"[2] == 'i';
  }

  /** The print settings and the switches leave the filters alone. */
  lemma FiltersKept(a1: Section, a2: Section, a3: Section)
    requires FiltersValid(a1) && Keeps(a1, a2, {"print", "printer"}) && Keeps(a2, a3, {"show", "active"})
    ensures FiltersValid(a3)
  {
    KeyNamesDistinct();
  }

  /** The switches leave the print settings alone. */
  lemma PrintSettingsKept(a: Section, b: Section, printers: Printers)
    requires PrintSettingsValid(a, printers) && Keeps(a, b, {"show", "active"})
    ensures PrintSettingsValid(b, printers)
  {
    KeyNamesDistinct();
  }

  /** The three steps together change only the editor's settings. */
  lemma KeepsChain(s0: Section, s1: Section, s2: Section, s3: Section)
    requires Keeps(s0, s1, {"prefix", "suffix"}) && Keeps(s1, s2, {"print", "printer"}) && Keeps(s2, s3, {"show", "active"})
    ensures Keeps(s0, s3, EditorKeys)
  {
    forall k | k !in EditorKeys
      ensures (k in s3 <==> k in s0) && (k in s0 ==> s3[k] == s0[k])
    {
      assert k !in {"prefix", "suffix"} && k !in {"print", "printer"} && k !in {"show", "active"};
    }
  }

  // ----- edit_section: passes until the user confirms -----

  /** `edit_section(name, section)`: passes over the section until the user confirms it (default yes);
      each pass starts from the previous one's values. */
  function EditSectionSpec(style: Style, printers: Printers, sec: Section, input: seq<string>): (r: Reply<Section>)
    ensures r.Answer? ==> |r.rest| < |input|
    decreases |input|
  {
    match EditPass(style, printers, sec, input)
    case Raise(f) => Raise(f)
    case Answer(edited, rest) =>
      match BoolDecision(style, ConfirmQuestion, true, rest)
      case Raise(f) => Raise(f)
      case Answer(confirmed, rest') =>
        if confirmed then Answer(edited, rest') else EditSectionSpec(style, printers, edited, rest')
  }

  /** The confirmed section is well formed and keeps every setting the editor does not manage. */
  lemma {:induction false} EditSectionMeaning(style: Style, printers: Printers, sec: Section, input: seq<string>)
    ensures var r := EditSectionSpec(style, printers, sec, input);
      (r.Answer? ==> EditedSection(r.value, printers) && Keeps(sec, r.value, EditorKeys)) &&
      (r.Raise? ==> r.failure == EndOfInput || !PrintersUsable(printers))
    decreases |input|
  {
    EditPassMeaning(style, printers, sec, input);
    var p := EditPass(style, printers, sec, input);
    if p.Answer? {
      BoolDecisionMeaning(style, ConfirmQuestion, true, p.rest);
      var c := BoolDecision(style, ConfirmQuestion, true, p.rest);
      if c.Answer? && !c.value {
        EditSectionMeaning(style, printers, p.value, c.rest);
        var r := EditSectionSpec(style, printers, p.value, c.rest);
        if r.Answer? {
          KeepsTrans(sec, p.value, r.value, EditorKeys);
        }
      }
    }
  }

  lemma KeepsTrans(a: Section, b: Section, c: Section, changed: set<string>)
    requires Keeps(a, b, changed) && Keeps(b, c, changed)
    ensures Keeps(a, c, changed)
  {
  }

  /** `edit_section` as the program runs it: a loop of passes, left when the user confirms. */
  method EditSection(style: Style, printers: Printers, sec: Section, input: seq<string>) returns (r: Reply<Section>)
    ensures r == EditSectionSpec(style, printers, sec, input)
  {
    var current := sec;
    var remaining := input;
    while true
      invariant EditSectionSpec(style, printers, sec, input) == EditSectionSpec(style, printers, current, remaining)
      decreases |remaining|
    {
      var pass := EditPass(style, printers, current, remaining);
      if pass.Raise? {
        return Raise(pass.failure);
      }
      var confirm := BoolDecision(style, ConfirmQuestion, true, pass.rest);
      if confirm.Raise? {
        return Raise(confirm.failure);
      }
      if confirm.value {
        return Answer(pass.value, confirm.rest);
      }
      current, remaining := pass.value, confirm.rest;
    }
  }

  // ----- create_section: a fresh name, then an empty section edited -----

  /** The names a new section may not take, compared in lower case. */
  predicate Reserved(name: string) {
    Lower(name) == "cancel" || Lower(name) == "c"
  }

  /** The name loop of `create_section`: ask until the stripped answer is non-empty, not taken (ignoring
      case) and not a word that means cancel. */
  function AskNameSpec(cfg: Config, input: seq<string>): (r: Reply<string>)
    ensures r.Answer? ==> |r.rest| < |input|
    decreases |input|
  {
    match ReadLine(input)
    case Raise(f) => Raise(f)
    case Answer(name, rest) =>
      if name == "" || HasKey(cfg, name) || Reserved(name) then AskNameSpec(cfg, rest) else Answer(name, rest)
  }

  /** A line the name loop rejects: blank, taken or reserved once stripped. */
  predicate Unacceptable(cfg: Config, line: string) {
    var name := Strip(line);
    name == "" || HasKey(cfg, name) || Reserved(name)
  }

  /** The accepted name is the first acceptable answer: non-blank, free and not reserved, without
      surrounding blanks; every earlier answer was unacceptable.  Running out of answers is the only failure. */
  lemma {:induction false} AskNameMeaning(cfg: Config, input: seq<string>)
    ensures var r := AskNameSpec(cfg, input);
      (r.Raise? ==> r.failure == EndOfInput) &&
      (r.Answer? ==> (var k := |input| - |r.rest| - 1;
        r.value == Strip(input[k]) && r.value != "" && !HasKey(cfg, r.value) && !Reserved(r.value) &&
        !IsSpace(r.value[0]) && !IsSpace(r.value[|r.value| - 1]) &&
        forall j :: 0 <= j < k ==> Unacceptable(cfg, input[j])))
    decreases |input|
  {
    if input != [] {
      if Unacceptable(cfg, input[0]) {
        assert AskNameSpec(cfg, input) == AskNameSpec(cfg, input[1..]);
        AskNameMeaning(cfg, input[1..]);
        AskNameShift(cfg, input, AskNameSpec(cfg, input[1..]));
      } else {
        assert AskNameSpec(cfg, input) == Answer(Strip(input[0]), input[1..]);
        StripMeaning(input[0]);
      }
    }
  }

  /** An answer found after a rejected first line keeps its meaning with that line put back in front. */
  lemma AskNameShift(cfg: Config, input: seq<string>, r: Reply<string>)
    requires input != [] && Unacceptable(cfg, input[0])
    requires r.Answer? ==> (|r.rest| < |input| - 1 && (var k := |input| - 1 - |r.rest| - 1;
      r.value == Strip(input[1..][k]) && forall j :: 0 <= j < k ==> Unacceptable(cfg, input[1..][j])))
    ensures r.Answer? ==> (var k := |input| - |r.rest| - 1;
      r.value == Strip(input[k]) && forall j :: 0 <= j < k ==> Unacceptable(cfg, input[j]))
  {
    if r.Answer? {
      var k := |input| - |r.rest| - 1;
      assert input[k] == input[1..][k - 1];
      forall j | 1 <= j < k ensures Unacceptable(cfg, input[j]) {
        assert input[j] == input[1..][j - 1];
      }
    }
  }

  /** `create_section(config)`: a fresh name, then an empty section through `edit_section`. */
  function CreateSectionSpec(style: Style, printers: Printers, cfg: Config, input: seq<string>): (r: Reply<(string, Section)>)
    ensures r.Answer? ==> |r.rest| < |input|
  {
    match AskNameSpec(cfg, input)
    case Raise(f) => Raise(f)
    case Answer(name, rest) =>
      match EditSectionSpec(style, printers, map[], rest)
      case Raise(f) => Raise(f)
      case Answer(sec, rest') => Answer((name, sec), rest')
  }

  /** A created section has a free, valid name and holds exactly the editor's settings, well formed. */
  lemma CreateSectionMeaning(style: Style, printers: Printers, cfg: Config, input: seq<string>)
    ensures var r := CreateSectionSpec(style, printers, cfg, input);
      (r.Answer? ==> (var (name, sec) := r.value;
        name != "" && !HasKey(cfg, name) && !Reserved(name) &&
        EditedSection(sec, printers) && sec.Keys <= EditorKeys)) &&
      (r.Raise? ==> r.failure == EndOfInput || !PrintersUsable(printers))
  {
    AskNameMeaning(cfg, input);
    var n := AskNameSpec(cfg, input);
    if n.Answer? {
      EditSectionMeaning(style, printers, map[], n.rest);
    }
  }

  /** `create_section` as the program runs it: the name loop, then the editing loop. */
  method CreateSection(style: Style, printers: Printers, cfg: Config, input: seq<string>) returns (r: Reply<(string, Section)>)
    ensures r == CreateSectionSpec(style, printers, cfg, input)
  {
    var name := "";
    var remaining := input;
    while name == ""
      invariant name == "" ==> AskNameSpec(cfg, input) == AskNameSpec(cfg, remaining)
      invariant name != "" ==> AskNameSpec(cfg, input) == Answer(name, remaining)
      decreases |remaining|
    {
      if remaining == [] {
        return Raise(EndOfInput);
      }
      name := Strip(remaining[0]);
      remaining := remaining[1..];
      if HasKey(cfg, name) {
        name := "";
      }
      if Reserved(name) {
        name := "";
      }
    }
    var edited := EditSection(style, printers, map[], remaining);
    match edited
    case Raise(f) => return Raise(f);
    case Answer(sec, rest) => return Answer((name, sec), rest);
  }
}
