/**
 * The configuration editor's session: the command menu, the commands `save`, `add`, `delete`,
 * `repair`, `show`, `change`, `edit`, `close` and `help`, and the loop that asks for a command until
 * the session closes.  The file on disk is part of the state: `save` writes the configuration to it,
 * and `close` compares it with the configuration being edited.
 */
module Session {
  import opened Wrappers
  import opened Text
  import opened Config
  import opened Prompt
  import opened Ordering
  import opened SectionEditing
  import opened Repair
  import Dispatch
  import Scripts

  // ----- the command menu -----

  /** `generate_list_of_available_commands(config)`: the commands that make sense for this configuration. */
  function AvailableCommands(cfg: Config): (r: seq<string>)
    ensures 9 <= |r| <= 16 && r[2] == "close"
  {
    ["save", "s", "close", "c", "add", "a"]
    + (if cfg != [] then ["repair", "r", "delete", "d"] else [])
    + ["show"]
    + (if |cfg| > 1 then ["change"] else [])
    + (if cfg != [] then ["edit", "e"] else [])
    + ["help", "h"]
  }

  /** Saving, closing, adding, showing and help are always offered. */
  lemma AlwaysOffered(cfg: Config)
    ensures var cmds := AvailableCommands(cfg);
      "save" in cmds && "s" in cmds && "close" in cmds && "c" in cmds && "add" in cmds && "a" in cmds &&
      "show" in cmds && "help" in cmds && "h" in cmds
  {
    var cmds := AvailableCommands(cfg);
    if cfg == [] {
      assert cmds == ["save", "s", "close", "c", "add", "a", "show", "help", "h"];
    } else if |cfg| == 1 {
      assert cmds == ["save", "s", "close", "c", "add", "a", "repair", "r", "delete", "d", "show", "edit", "e", "help", "h"];
    } else {
      assert cmds == ["save", "s", "close", "c", "add", "a", "repair", "r", "delete", "d", "show", "change", "edit", "e", "help", "h"];
    }
  }

  /** Repairing, deleting and editing are offered exactly when there is a section. */
  lemma OfferedWithSections(cfg: Config)
    ensures var cmds := AvailableCommands(cfg);
      ("repair" in cmds <==> cfg != []) && ("r" in cmds <==> cfg != []) &&
      ("delete" in cmds <==> cfg != []) && ("d" in cmds <==> cfg != []) &&
      ("edit" in cmds <==> cfg != []) && ("e" in cmds <==> cfg != [])
  {
    var cmds := AvailableCommands(cfg);
    if cfg == [] {
      assert cmds == ["save", "s", "close", "c", "add", "a", "show", "help", "h"];
    } else {
      var mid := if |cfg| > 1 then ["change"] else [];
      assert cmds == ["save", "s", "close", "c", "add", "a"] + ["repair", "r", "delete", "d"] + ["show"] + mid + ["edit", "e"] + ["help", "h"];
      assert cmds[6] == "repair" && cmds[7] == "r" && cmds[8] == "delete" && cmds[9] == "d";
      assert cmds[|cmds| - 4] == "edit" && cmds[|cmds| - 3] == "e";
    }
  }

  /** Moving a section is offered exactly when there are two or more. */
  lemma OfferedWithTwoSections(cfg: Config)
    ensures "change" in AvailableCommands(cfg) <==> |cfg| > 1
  {
    var cmds := AvailableCommands(cfg);
    if |cfg| > 1 {
      assert cmds[11] == "change";
    } else if cfg == [] {
      assert cmds == ["save", "s", "close", "c", "add", "a", "show", "help", "h"];
    } else {
      assert cmds == ["save", "s", "close", "c", "add", "a", "repair", "r", "delete", "d", "show", "edit", "e", "help", "h"];
    }
  }

  // ----- add and edit -----

  /** `add_section(config)`: create a section, then insert it where the user says. */
  function AddSection(style: Style, printers: Printers, cfg: Config, input: seq<string>): (r: Reply<Config>)
    requires UniqueKeys(cfg)
    ensures r.Answer? ==> |r.rest| < |input|
  {
    CreateSectionMeaning(style, printers, cfg, input);
    match CreateSectionSpec(style, printers, cfg, input)
    case Raise(f) => Raise(f)
    case Answer(created, rest) => InsertSection(style, cfg, created.0, created.1, rest)
  }

  /** Adding either keeps the configuration (the insertion was cancelled) or puts one new, well-formed
      section with a fresh name somewhere in it, the others keeping their order; names stay unique. */
  lemma AddSectionMeaning(style: Style, printers: Printers, cfg: Config, input: seq<string>)
    requires UniqueKeys(cfg)
    ensures var r := AddSection(style, printers, cfg, input);
      (r.Answer? ==> (UniqueKeys(r.value) && (r.value == cfg ||
        exists k, name, sec :: 0 <= k <= |cfg| && r.value == InsertAt(cfg, k, (name, sec)) &&
          name != "" && !HasKey(cfg, name) && !Reserved(name) && EditedSection(sec, printers)))) &&
      (r.Raise? ==> r.failure == EndOfInput || !PrintersUsable(printers))
  {
    CreateSectionMeaning(style, printers, cfg, input);
    var c := CreateSectionSpec(style, printers, cfg, input);
    if c.Answer? {
      var (name, sec) := c.value;
      InsertSectionPlaces(style, cfg, name, sec, c.rest);
      var p := GetInsertPosition(style, |cfg|, c.rest);
      var r := AddSection(style, printers, cfg, input);
      assert r == InsertSection(style, cfg, name, sec, c.rest);
      if r.Answer? && !IsCancel(p.value) {
        var k := ParseDecimal(p.value).value;
        assert r.value == InsertAt(cfg, k, (name, sec));
      }
    }
  }

  /** `config[i] = sec`: the section at `i` replaced, under its own name. */
  function Replaced(cfg: Config, i: nat, sec: Section): Config
    requires i < |cfg|
  {
    cfg[i := (cfg[i].0, sec)]
  }

  /** `edit_section_command(config)`: nothing to do on an empty configuration; otherwise choose a section
      (the first one by default) and put it through the section editor. */
  function EditSectionCommand(style: Style, printers: Printers, cfg: Config, input: seq<string>): (r: Reply<Config>)
    requires UniqueKeys(cfg)
    ensures r.Answer? ==> |r.rest| <= |input|
  {
    if cfg == [] then Answer(cfg, input)
    else
      ChosenIsAnOption(style, SectionQuestion, Keys(cfg), cfg[0].0, input);
      match Choose(style, SectionQuestion, Keys(cfg), cfg[0].0, input)
      case Raise(f) => Raise(f)
      case Answer(name, rest) =>
        ChosenKey(cfg, name);
        match EditSectionSpec(style, printers, Lookup(cfg, name).value, rest)
        case Raise(f) => Raise(f)
        case Answer(sec, rest') => Answer(SetItem(cfg, name, sec), rest')
  }

  /** Editing keeps the names and their order; at most one section changes, and it comes out well formed
      with every setting the editor does not manage kept. */
  lemma EditSectionCommandMeaning(style: Style, printers: Printers, cfg: Config, input: seq<string>)
    requires UniqueKeys(cfg)
    ensures var r := EditSectionCommand(style, printers, cfg, input);
      (r.Answer? ==> (UniqueKeys(r.value) && Keys(r.value) == Keys(cfg) && (r.value == cfg ||
        exists i, sec :: 0 <= i < |cfg| && r.value == Replaced(cfg, i, sec) &&
          EditedSection(sec, printers) && Keeps(cfg[i].1, sec, EditorKeys)))) &&
      (r.Raise? ==> r.failure == EndOfInput || !PrintersUsable(printers))
  {
    if cfg != [] {
      ChosenIsAnOption(style, SectionQuestion, Keys(cfg), cfg[0].0, input);
      var c := Choose(style, SectionQuestion, Keys(cfg), cfg[0].0, input);
      if c.Answer? {
        ChosenKey(cfg, c.value);
        var i := IndexOf(cfg, c.value).value;
        IndexOfUnique(cfg, i);
        assert Lookup(cfg, c.value) == Some(cfg[i].1);
        EditChosen(style, printers, cfg, i, c.rest);
      }
    }
  }

  /** Editing the section at `i` replaces it in place by the editor's result. */
  lemma EditChosen(style: Style, printers: Printers, cfg: Config, i: nat, rest: seq<string>)
    requires UniqueKeys(cfg) && i < |cfg|
    ensures var e := EditSectionSpec(style, printers, cfg[i].1, rest);
      (e.Answer? ==> (SetItem(cfg, cfg[i].0, e.value) == Replaced(cfg, i, e.value) &&
        UniqueKeys(Replaced(cfg, i, e.value)) && Keys(Replaced(cfg, i, e.value)) == Keys(cfg) &&
        EditedSection(e.value, printers) && Keeps(cfg[i].1, e.value, EditorKeys))) &&
      (e.Raise? ==> e.failure == EndOfInput || !PrintersUsable(printers))
  {
    EditSectionMeaning(style, printers, cfg[i].1, rest);
    var e := EditSectionSpec(style, printers, cfg[i].1, rest);
    if e.Answer? {
      ReplacedInPlace(cfg, i, e.value);
    }
  }

  /** Storing under the name at `i` replaces that section, keeping the names. */
  lemma ReplacedInPlace(cfg: Config, i: nat, sec: Section)
    requires UniqueKeys(cfg) && i < |cfg|
    ensures SetItem(cfg, cfg[i].0, sec) == Replaced(cfg, i, sec)
    ensures UniqueKeys(Replaced(cfg, i, sec)) && Keys(Replaced(cfg, i, sec)) == Keys(cfg)
  {
    IndexOfUnique(cfg, i);
    ReplaceStores(cfg, i, cfg[i].0, sec);
    assert Keys(cfg)[i := cfg[i].0] == Keys(cfg);
  }

  // ----- one command -----

  /** The editor as both versions are written, or with its two flaws corrected: the move that loses its
      section when the position is cancelled, and the question about unsaved changes that shows "[n]"
      but defaults to yes. */
  datatype Build = AsWritten | Corrected

  /** The answer a blank line gives to the question about unsaved changes: yes as written. */
  predicate CloseDefault(build: Build) {
    build.AsWritten?
  }

  /** `change_section_position(config)` in the chosen build. */
  function ChangePosition(build: Build, style: Style, cfg: Config, input: seq<string>): (r: Reply<Config>)
    requires UniqueKeys(cfg)
    ensures r.Answer? ==> |r.rest| <= |input|
  {
    if build.AsWritten? then ChangeSectionPositionAsWritten(style, cfg, input) else ChangeSectionPosition(style, cfg, input)
  }

  /** In either build a move keeps names unique, and only end of input makes it fail. */
  lemma ChangePositionKeepsUnique(build: Build, style: Style, cfg: Config, input: seq<string>)
    requires UniqueKeys(cfg)
    ensures var r := ChangePosition(build, style, cfg, input);
      (r.Answer? ==> UniqueKeys(r.value)) && (r.Raise? ==> r.failure == EndOfInput)
  {
    if build.AsWritten? {
      ChangeSectionPositionAsWrittenMeaning(style, cfg, input);
    } else {
      ChangeSectionPositionKeepsSections(style, cfg, input);
    }
  }

  /** What the session holds: the configuration being edited and the one the file holds. */
  datatype EditorState = EditorState(current: Config, onDisk: Config)

  /** The commands that change the configuration being edited. */
  predicate Edits(action: string) {
    action in ["add", "a", "delete", "d", "repair", "r", "change", "edit", "e"]
  }

  const CloseQuestion := "There are unsaved changes. Please confirm with y/n if you want to close anyway[n]:"

  /** The state after a command that changes only the configuration, and no request to leave. */
  function Continue(st: EditorState, r: Reply<Config>): (q: Reply<(EditorState, bool)>)
    ensures q.Answer? <==> r.Answer?
    ensures q.Answer? ==> q.value == (EditorState(r.value, st.onDisk), false) && q.rest == r.rest
    ensures q.Raise? ==> q.failure == r.failure
  {
    match r
    case Raise(f) => Raise(f)
    case Answer(cfg, rest) => Answer((EditorState(cfg, st.onDisk), false), rest)
  }

  /** The `close` command: leave at once when the file holds the configuration being edited; otherwise
      ask, and leave on yes.  `discard` is the answer a blank line gives. */
  function Close(style: Style, equal: (Config, Config) -> bool, st: EditorState, discard: bool, input: seq<string>)
    : (r: Reply<(EditorState, bool)>)
    ensures r.Answer? ==> |r.rest| <= |input| && r.value.0 == st
  {
    if equal(st.onDisk, st.current) then Answer((st, true), input)
    else match BoolDecision(style, CloseQuestion, discard, input)
      case Raise(f) => Raise(f)
      case Answer(yes, rest) => Answer((st, yes), rest)
  }

  /** As written, a blank answer to the question about unsaved changes closes the session and loses them,
      although the question shows "[n]" as its default. */
  lemma CloseAsWrittenDiscardsOnBlank(style: Style, equal: (Config, Config) -> bool, st: EditorState,
                                      line: string, rest: seq<string>)
    requires !equal(st.onDisk, st.current) && Strip(line) == ""
    ensures Close(style, equal, st, true, [line] + rest) == Answer((st, true), rest)
  {
    BoolDecisionBlankKeepsDefault(style, CloseQuestion, true, line, rest);
  }

  /** With "no" as the default, a blank answer keeps the session open with its unsaved changes. */
  lemma CloseKeepsSessionOnBlank(style: Style, equal: (Config, Config) -> bool, st: EditorState,
                                 line: string, rest: seq<string>)
    requires !equal(st.onDisk, st.current) && Strip(line) == ""
    ensures Close(style, equal, st, false, [line] + rest) == Answer((st, false), rest)
  {
    BoolDecisionBlankKeepsDefault(style, CloseQuestion, false, line, rest);
  }

  /** `handle_action(action, config)`, and the same dispatch written inline in the newer editor's loop.
      `equal` is the comparison of the file's configuration with the one being edited.  Under `AsWritten`
      the move and the question about unsaved changes behave as both editors have them (default yes);
      under `Corrected` a cancelled move keeps the section and the question defaults to the "no" it
      announces.  An action outside the menu (and `show`, `help`) changes nothing. */
  function HandleAction(build: Build, style: Style, printers: Printers, equal: (Config, Config) -> bool, action: string,
                        st: EditorState, input: seq<string>): (r: Reply<(EditorState, bool)>)
    requires UniqueKeys(st.current)
    ensures r.Answer? ==> |r.rest| <= |input| && UniqueKeys(r.value.0.current)
  {
    if action in ["s", "save"] then Answer((EditorState(st.current, st.current), false), input)
    else if action in ["add", "a"] then
      AddSectionMeaning(style, printers, st.current, input);
      Continue(st, AddSection(style, printers, st.current, input))
    else if action in ["delete", "d"] then
      DeleteKeepsUnique(style, st.current, input);
      Continue(st, DeleteSection(style, st.current, input))
    else if action in ["repair", "r"] then
      RepairKeepsUnique(style, printers, st.current, input);
      Continue(st, RepairSpec(style, printers, st.current, input))
    else if action == "change" then
      ChangePositionKeepsUnique(build, style, st.current, input);
      Continue(st, ChangePosition(build, style, st.current, input))
    else if action in ["edit", "e"] then
      EditSectionCommandMeaning(style, printers, st.current, input);
      Continue(st, EditSectionCommand(style, printers, st.current, input))
    else if action in ["close", "c"] then Close(style, equal, st, CloseDefault(build), input)
    else Answer((st, false), input)
  }

  lemma DeleteKeepsUnique(style: Style, cfg: Config, input: seq<string>)
    requires UniqueKeys(cfg)
    ensures var r := DeleteSection(style, cfg, input);
      (r.Answer? ==> UniqueKeys(r.value)) && (r.Raise? ==> r.failure == EndOfInput)
  {
    DeleteSectionRemovesChosen(style, cfg, input);
    var r := DeleteSection(style, cfg, input);
    if r.Answer? && r.value != cfg {
      var i :| 0 <= i < |cfg| && !IsCancel(cfg[i].0) && r.value == cfg[..i] + cfg[i + 1..];
      RemoveOneKeepsUnique(cfg, i);
    }
  }

  lemma RepairKeepsUnique(style: Style, printers: Printers, cfg: Config, input: seq<string>)
    requires UniqueKeys(cfg)
    ensures var r := RepairSpec(style, printers, cfg, input);
      (r.Answer? ==> UniqueKeys(r.value) && PrintersKnown(r.value, printers)) &&
      (r.Raise? ==> r.failure == EndOfInput || !PrintersUsable(printers))
  {
    RepairMeaning(style, printers, cfg, input);
    var r := RepairSpec(style, printers, cfg, input);
    if r.Answer? {
      forall i | 0 <= i < |cfg| ensures r.value[i].0 == cfg[i].0 {
        assert Keys(r.value)[i] == Keys(cfg)[i];
      }
    }
  }

  /** One command: only `save` writes the file, and it writes the configuration being edited; only the
      editing commands change that configuration; only `close` ends the session, and it does so when the
      file already holds the configuration or when the user answers yes to the question about unsaved
      changes.  Names stay unique.  A failure is end of input or, for the commands that choose a printer,
      an unusable printer list. */
  lemma HandleActionMeaning(build: Build, style: Style, printers: Printers, equal: (Config, Config) -> bool, action: string,
                            st: EditorState, input: seq<string>)
    requires UniqueKeys(st.current)
    ensures var r := HandleAction(build, style, printers, equal, action, st, input);
      (r.Answer? ==> (
        (r.value.0.onDisk == st.onDisk || (action in ["s", "save"] && r.value.0 == EditorState(st.current, st.current))) &&
        (!Edits(action) ==> r.value.0.current == st.current) &&
        (r.value.1 ==> action in ["close", "c"] && r.value.0 == st) &&
        (action in ["close", "c"] && equal(st.onDisk, st.current) ==> r.value.1 && r.rest == input) &&
        (action in ["close", "c"] && !equal(st.onDisk, st.current) ==>
          BoolDecision(style, CloseQuestion, CloseDefault(build), input) == Answer(r.value.1, r.rest)))) &&
      (r.Raise? ==> r.failure == EndOfInput || !PrintersUsable(printers))
  {
    if action in ["add", "a"] {
      AddSectionMeaning(style, printers, st.current, input);
    } else if action in ["delete", "d"] {
      DeleteKeepsUnique(style, st.current, input);
    } else if action in ["repair", "r"] {
      RepairKeepsUnique(style, printers, st.current, input);
    } else if action == "change" {
      ChangePositionKeepsUnique(build, style, st.current, input);
    } else if action in ["edit", "e"] {
      EditSectionCommandMeaning(style, printers, st.current, input);
    } else if action in ["close", "c"] {
      BoolDecisionMeaning(style, CloseQuestion, CloseDefault(build), input);
    }
  }

  // ----- the session -----

  const ActionQuestion := "What workflows should be taken?:"

  /** The editor's main loop: ask for a command among the available ones ("close" by default), carry it
      out, and stop when it asks to leave.  The result is the state at the end. */
  function SessionSpec(build: Build, style: Style, printers: Printers, equal: (Config, Config) -> bool, st: EditorState,
                       input: seq<string>): (r: Reply<EditorState>)
    requires UniqueKeys(st.current)
    ensures r.Answer? ==> |r.rest| < |input|
    decreases |input|
  {
    ChosenIsAnOption(style, ActionQuestion, AvailableCommands(st.current), "close", input);
    match Choose(style, ActionQuestion, AvailableCommands(st.current), "close", input)
    case Raise(f) => Raise(f)
    case Answer(action, rest) =>
      match HandleAction(build, style, printers, equal, action, st, rest)
      case Raise(f) => Raise(f)
      case Answer(step, rest') =>
        if step.1 then Answer(step.0, rest') else SessionSpec(build, style, printers, equal, step.0, rest')
  }

  /** What a whole session does.  It ends only through `close`, so with the last state unchanged by the
      final command; names stay unique throughout; and the file ends up holding either what it held at
      the start or a configuration the session had (with unique names).  The only failure is end of
      input, or an unusable printer list. */
  lemma {:induction false} SessionMeaning(build: Build, style: Style, printers: Printers, equal: (Config, Config) -> bool,
                                          st: EditorState, input: seq<string>)
    requires UniqueKeys(st.current)
    ensures var r := SessionSpec(build, style, printers, equal, st, input);
      (r.Answer? ==> UniqueKeys(r.value.current) && (r.value.onDisk == st.onDisk || UniqueKeys(r.value.onDisk))) &&
      (r.Raise? ==> r.failure == EndOfInput || !PrintersUsable(printers))
    decreases |input|
  {
    ChosenIsAnOption(style, ActionQuestion, AvailableCommands(st.current), "close", input);
    var c := Choose(style, ActionQuestion, AvailableCommands(st.current), "close", input);
    if c.Answer? {
      HandleActionMeaning(build, style, printers, equal, c.value, st, c.rest);
      var h := HandleAction(build, style, printers, equal, c.value, st, c.rest);
      if h.Answer? && !h.value.1 {
        SessionMeaning(build, style, printers, equal, h.value.0, h.rest);
      }
    }
  }

  /** Asked to close when the file holds the configuration, the session ends at once, unchanged. */
  lemma CloseWhenSavedEnds(build: Build, style: Style, printers: Printers, equal: (Config, Config) -> bool, st: EditorState,
                           rest: seq<string>)
    requires UniqueKeys(st.current) && equal(st.onDisk, st.current)
    ensures SessionSpec(build, style, printers, equal, st, ["close"] + rest) == Answer(st, rest)
  {
    CloseIsOffered(style, st.current, rest);
    HandleClose(build, style, printers, equal, "close", st, rest);
  }

  /** The close command reaches `Close` with the build's default answer. */
  lemma HandleClose(build: Build, style: Style, printers: Printers, equal: (Config, Config) -> bool, action: string,
                    st: EditorState, input: seq<string>)
    requires UniqueKeys(st.current) && action in ["close", "c"]
    ensures HandleAction(build, style, printers, equal, action, st, input) == Close(style, equal, st, CloseDefault(build), input)
  {
    assert action !in ["s", "save"] && action !in ["add", "a"] && action !in ["delete", "d"];
    assert action !in ["repair", "r"] && action != "change" && action !in ["edit", "e"];
  }

  /** As written, "close" followed by a blank answer ends a session that has unsaved changes. */
  lemma AsWrittenBlankCloseEndsSession(style: Style, printers: Printers, equal: (Config, Config) -> bool,
                                       st: EditorState, line: string, rest: seq<string>)
    requires UniqueKeys(st.current) && !equal(st.onDisk, st.current) && Strip(line) == ""
    ensures SessionSpec(AsWritten, style, printers, equal, st, ["close", line] + rest) == Answer(st, rest)
  {
    assert ["close", line] + rest == ["close"] + ([line] + rest);
    CloseIsOffered(style, st.current, [line] + rest);
    HandleClose(AsWritten, style, printers, equal, "close", st, [line] + rest);
    CloseAsWrittenDiscardsOnBlank(style, equal, st, line, rest);
  }

  /** Corrected, "close" followed by a blank answer keeps the session, and its unsaved changes, going. */
  lemma CorrectedBlankCloseContinues(style: Style, printers: Printers, equal: (Config, Config) -> bool,
                                     st: EditorState, line: string, rest: seq<string>)
    requires UniqueKeys(st.current) && !equal(st.onDisk, st.current) && Strip(line) == ""
    ensures HandleAction(Corrected, style, printers, equal, "close", st, [line] + rest) == Answer((st, false), rest)
  {
    HandleClose(Corrected, style, printers, equal, "close", st, [line] + rest);
    CloseKeepsSessionOnBlank(style, equal, st, line, rest);
  }

  /** Typing "close" at the command prompt chooses it. */
  lemma CloseIsOffered(style: Style, cfg: Config, rest: seq<string>)
    ensures Choose(style, ActionQuestion, AvailableCommands(cfg), "close", ["close"] + rest) == Answer("close", rest)
  {
    var cmds := AvailableCommands(cfg);
    assert cmds[2] == "close" && cmds[0] == "save" && cmds[1] == "s";
    assert Strip("close") == "close";
    assert Lower("close") == "close" && Lower("save") == "save" && Lower("s") == "s";
    FirstIgnoringCaseAt(cmds, "close", 2);
    TypedAnswerTakesOption(style, ActionQuestion, cmds, "close", "close", rest, 2);
  }

  /** Saving and then closing ends the session with the file holding the configuration, without asking
      about unsaved changes. */
  lemma SaveThenCloseEnds(build: Build, style: Style, printers: Printers, equal: (Config, Config) -> bool, st: EditorState,
                          rest: seq<string>)
    requires UniqueKeys(st.current) && equal(st.current, st.current)
    ensures SessionSpec(build, style, printers, equal, st, ["save", "close"] + rest) ==
      Answer(EditorState(st.current, st.current), rest)
  {
    var cmds := AvailableCommands(st.current);
    assert cmds[0] == "save";
    assert Strip("save") == "save";
    assert Lower("save") == "save";
    FirstIgnoringCaseAt(cmds, "save", 0);
    assert ["save", "close"] + rest == ["save"] + (["close"] + rest);
    TypedAnswerTakesOption(style, ActionQuestion, cmds, "close", "save", ["close"] + rest, 0);
    var saved := EditorState(st.current, st.current);
    assert HandleAction(build, style, printers, equal, "save", st, ["close"] + rest) == Answer((saved, false), ["close"] + rest);
    CloseWhenSavedEnds(build, style, printers, equal, saved, rest);
  }

  /** Sections the editor produces are judged alike by the executor and by its newer version. */
  lemma EditedSectionsJudgedAlike(sec: Section, printers: Printers, fileName: string, dp: string)
    requires EditedSection(sec, printers)
    ensures Dispatch.Judge(Scripts.Executor, fileName, sec, dp) == Dispatch.Judge(Scripts.NewExecutor, fileName, sec, dp)
  {
    Scripts.ExecutorsAgreeOnEditedSections(fileName, sec, dp);
  }

  // ----- the loop as the program runs it -----

  /** `handle_action` as the program runs it, with the loops of creating, editing and repairing run as
      loops. */
  method RunAction(build: Build, style: Style, printers: Printers, equal: (Config, Config) -> bool, action: string,
                   st: EditorState, input: seq<string>) returns (r: Reply<(EditorState, bool)>)
    requires UniqueKeys(st.current)
    ensures r == HandleAction(build, style, printers, equal, action, st, input)
  {
    var cfg := st.current;
    if action in ["add", "a"] {
      var created := CreateSection(style, printers, cfg, input);
      if created.Raise? {
        return Raise(created.failure);
      }
      CreateSectionMeaning(style, printers, cfg, input);
      var (name, sec) := created.value;
      return Continue(st, InsertSection(style, cfg, name, sec, created.rest));
    } else if action in ["repair", "r"] {
      var repaired := RepairConfig(style, printers, cfg, input);
      return Continue(st, repaired);
    } else if action in ["edit", "e"] && cfg != [] {
      var choice := InputChoice(style, SectionQuestion, Keys(cfg), cfg[0].0, input);
      if choice.Raise? {
        return Raise(choice.failure);
      }
      ChosenIsAnOption(style, SectionQuestion, Keys(cfg), cfg[0].0, input);
      ChosenKey(cfg, choice.value);
      var edited := EditSection(style, printers, Lookup(cfg, choice.value).value, choice.rest);
      if edited.Raise? {
        return Raise(edited.failure);
      }
      return Continue(st, Answer(SetItem(cfg, choice.value, edited.value), edited.rest));
    }
    return HandleAction(build, style, printers, equal, action, st, input);
  }

  /** `main()`: the command loop, from the configuration loaded at the start until the session closes. */
  method RunSession(build: Build, style: Style, printers: Printers, equal: (Config, Config) -> bool, st: EditorState,
                    input: seq<string>) returns (r: Reply<EditorState>)
    requires UniqueKeys(st.current)
    ensures r == SessionSpec(build, style, printers, equal, st, input)
  {
    var state := st;
    var remaining := input;
    while true
      invariant UniqueKeys(state.current)
      invariant SessionSpec(build, style, printers, equal, st, input) == SessionSpec(build, style, printers, equal, state, remaining)
      decreases |remaining|
    {
      var action := InputChoice(style, ActionQuestion, AvailableCommands(state.current), "close", remaining);
      if action.Raise? {
        return Raise(action.failure);
      }
      ChosenIsAnOption(style, ActionQuestion, AvailableCommands(state.current), "close", remaining);
      var step := RunAction(build, style, printers, equal, action.value, state, action.rest);
      if step.Raise? {
        return Raise(step.failure);
      }
      if step.value.1 {
        return Answer(step.value.0, step.rest);
      }
      state, remaining := step.value.0, step.rest;
    }
  }
}
