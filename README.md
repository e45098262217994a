# auto_print in Dafny: rule selection and the configuration editor

auto_print is a small Windows tool. A file is handed to it, for instance by a folder watcher or the
"open with" menu. The tool reads a JSON configuration of named *sections*, each with:

- an optional filename `prefix` and `suffix`;
- a `print` switch, a `printer`, a `show` switch and an `active` switch.

The first active section whose filter accepts the file's base name decides what happens. Either the
file is printed, through the PDF reader when `show` is set and silently through Ghostscript
otherwise, or it is opened with the system's default application. A companion interactive editor
creates, edits, orders, repairs and deletes those sections.

The model has two halves.

**Rule selection** covers four entry points:

- the packaged executor (`src/auto_print/execute.py`);
- its rewrite (`src/auto_print/auto_print_execute.py`);
- two legacy stand-alone scripts (`auto_print.py`, `main.py`).

They share one algorithm. They differ in their defaults (`"false"` strings against booleans), in
the filter rule (optional filters against both required), in how a printer value is read, and in
what "open" does and whether it ends the run. `Dispatch` models the algorithm once, parametrised by
a `Policy`. `Scripts` fixes each entry point's policy and proves what follows for it. A run is a
function from the command line and an `Environment` to the list of outside actions and the way the
run ends. `Dispatch.RunEntryPoint` is the loop the program runs, proved equal to that function.

**The configuration editor** exists in two versions, `src/auto_print/config_generator.py` (older)
and `src/auto_print/auto_print_config_generator.py` (newer). They behave the same except for one
detail of the prompt: a blank answer. The older `input_choice` re-matches the default against the
options ignoring case; the newer returns it verbatim. The `Style` parameter selects the version.
`Prompt.StylesAgree` shows the two cannot be told apart when the options are distinct ignoring case.

The user's input is a sequence of lines. Every prompt consumes lines and returns its answer with the
lines not yet read, or raises. Running out of lines stands for `EOFError`. Every editing loop of the
source (the prompt loop, the section editing loop, the name loop, the repair loop and the command
loop) is an imperative `method`. Each such method is proved equal to a recursive specification
function, and the properties are proved about that function.

The configuration is a sequence of `(name, section)` pairs in priority order. Names are unique
ignoring case, as in the `CaseInsensitiveDict` the editor keeps them in. Lookups and stores ignore
case; a store on an existing name keeps its position.

## Model

| member | source | states |
|---|---|---|
| Text.StripMeaning | src/auto_print/config_generator.py:169 | `str.strip()` yields the empty string exactly when the line is all whitespace; otherwise the result starts and ends with a non-blank |
| Text.ParseNatToString | src/auto_print/config_generator.py:354 | `int(str(n)) == n`: a position offered as `str(n)` is read back as `n` |
| Text.NatToStringInjective | src/auto_print/config_generator.py:321 | two positions never share a numeral |
| Config.Get | src/auto_print/execute.py:249-251 | `section.get(key, default)` is the stored value when the key is present and the default otherwise |
| Config.Keys | src/auto_print/config_generator.py:425 | `list(config.keys())` lists the section names in order, one per section |
| Config.IndexOf | src/auto_print/config_generator.py:281 | finds the first section whose name equals the given one ignoring case, and finds none exactly when no name matches |
| Config.Lookup | src/auto_print/config_generator.py:443 | `config[name]` succeeds exactly when `name in config` |
| Config.SetItemStores | src/auto_print/config_generator.py:355 | after `config[name] = sec`, names are still unique and `config[name]` is `sec`; an existing name keeps its position (under the new spelling), a new one is appended |
| Config.SetItemKeepsOthers | src/auto_print/config_generator.py:473 | storing under one name leaves every other name's section unchanged |
| Filters.ProvisionFulfilled | src/auto_print/utils.py:100-116 | the file matches exactly when it starts with the prefix and ends with the suffix, an absent or empty filter accepting everything |
| Filters.ProvisionFulfilledNegated | src/auto_print/auto_print_execute.py:183-193 | the rewritten form, returning the negated suffix test, decides exactly like the original |
| Filters.ProvisionBothRequired | main.py:78-90 | the oldest script matches exactly when both filters are set and both hold |
| Filters.EmptyFilterActsAsAbsent | src/auto_print/utils.py:112-115 | an empty prefix or suffix decides like a missing one |
| Filters.BothRequiredIsStricter | main.py:86-89 | whatever the oldest check accepts the newer one accepts; with both filters set they agree; with one missing the oldest rejects |
| Filters.ProvisionExamples | tests/utils_test.py:115-139 | the eight cases of the unit test on "test.pdf" |
| Dispatch.FilterArg | src/auto_print/execute.py:254-258 | a falsy filter means no filter, a string is the filter text, and a truthy non-string makes the check raise |
| Dispatch.Matches | src/auto_print/execute.py:254-260 | on well-typed filters, the section's match is the policy's provision check on its prefix and suffix |
| Dispatch.PrinterFor | src/auto_print/auto_print_execute.py:309-314 | the file goes to the section's own `printer` setting when it has one: any stored value in the packaged executor and the legacy scripts, a string setting in the rewrite; otherwise, and in the rewrite for a non-string setting, to the default printer; the rewrite always yields a string |
| Dispatch.Judge | src/auto_print/execute.py:247-276 | one section's verdict: anything but a skip needs an active section; a print needs a truthy `print` and a matching filter, an open a falsy `print` and a matching filter; a print is a print action |
| Dispatch.JudgeDecides | src/auto_print/execute.py:249-273 | in both directions: a section is skipped exactly when it is inactive or its filter rejects the file, raises exactly when it is active and a filter is a truthy non-string; an active matching section prints on its printer when `print` is truthy (through the reader when `show` is truthy, through Ghostscript otherwise) and opens the file when `print` is falsy |
| Dispatch.RunEntryPoint | src/auto_print/execute.py:200-277 | the start-up checks and the section loop produce exactly the actions and the ending of `Run` |
| Dispatch.Run | src/auto_print/execute.py:200-277 | `main()` as a function of the command line and the environment: a run that exits with a non-zero code has done nothing |
| Dispatch.ScanFirstStopDecides | src/auto_print/execute.py:247-276 | the loop ends at the first section that prints, raises or (in the legacy script) opens; that section decides the ending, and a print is the last action |
| Dispatch.ScanFallsThroughIffNoStop | src/auto_print/execute.py:247-277 | the loop reaches "No valid action found" exactly when no section stops it |
| Dispatch.ScanPrintOnlyLast | src/auto_print/execute.py:264-276 | when opening never prints, a print is always the last action and is followed by exit code 0 |
| Dispatch.ScanIgnoresSkipped | src/auto_print/execute.py:249-261 | inserting an inactive or non-matching section anywhere changes nothing |
| Dispatch.ScanNoMatchNoAction | src/auto_print/execute.py:247-277 | when every section is skipped the run does nothing and falls through |
| Dispatch.ScanOneSectionActs | auto_print.py:186-221 | when opening ends the program, exactly one section's actions make up the whole trace |
| Dispatch.RunNeverExitsMinusTwo | src/auto_print/execute.py:212-220 | exit code -2 can never happen, because the test for a wrong argument count comes first |
| Dispatch.Scan | src/auto_print/execute.py:247-277 | the section loop (`for action_key in printer_config`) visits the sections in order; it only ever exits with code 0 |
| Dispatch.RunExitCodes | src/auto_print/execute.py:212-245 | a non-zero exit code is one of -1, -3, -4 and -5 and comes with no action; -1, -3 and -4 happen exactly when the argument count, the file check or the configuration read fails |
| Dispatch.RunActsOnlyOnExistingFile | src/auto_print/execute.py:232-245 | the program acts only on an existing file named by its single argument, and only after reading the configuration |
| Scripts.BareSectionPrints | src/auto_print/execute.py:249-268 | with the string default "false", a section with no settings is active, matches every file and prints it on the default printer |
| Scripts.BareFirstSectionPrintsEverything | src/auto_print/execute.py:247-270 | a settings-free first section makes the executor print every file it is given |
| Scripts.NewExecutorSkipsUnsetActive | src/auto_print/auto_print_execute.py:292-296 | the rewritten executor skips a section without `active` |
| Scripts.NewExecutorOpensUnsetPrint | src/auto_print/auto_print_execute.py:307-325 | the rewritten executor only opens a matching section without `print` |
| Scripts.NewExecutorPrinterIsString | src/auto_print/auto_print_execute.py:309-314 | the rewritten executor always prints to a string printer; a non-string setting gives the default printer |
| Scripts.ExecutorsAgreeOnEditedSections | src/auto_print/auto_print_execute.py:290-325 | on sections whose switches are booleans and whose printer is a string, the packaged and the rewritten executor decide alike |
| Scripts.OldestScriptNeedsBothFilters | main.py:86-89 | the oldest script never acts on a section missing a prefix or a suffix |
| Scripts.LegacyScriptActsOnce | auto_print.py:205-221 | the legacy script either does nothing, prints once, or opens the file once each way and exits |
| Scripts.ExecutorsPrintLast | src/auto_print/auto_print_execute.py:307-325 | in the executors and the oldest script a print is always the last action, with exit code 0 |
| Scripts.ExecutorShowOnlyExample | tests/execute_test.py:341-382 | the unit test's show-only section: the file is opened once and the program does not exit |
| Prompt.FirstIgnoringCaseSpec | src/auto_print/config_generator.py:66 | the answer resolves to the first option equal to it ignoring case, and to none exactly when no option matches |
| Prompt.FindIgnoringCase | src/auto_print/auto_print_config_generator.py:76-78 | the newer editor's scan over the options finds that same first match |
| Prompt.NormalisingRound | src/auto_print/config_generator.py:63-68 | in the older editor an accepted answer is always a non-empty option |
| Prompt.VerbatimRound | src/auto_print/auto_print_config_generator.py:69-78 | in the newer editor an accepted answer is an option, or the default for a blank line |
| Prompt.Await | src/auto_print/config_generator.py:60-68 | the question repeats until a line is accepted; it consumes at least that line, and failing means the input ran out |
| Prompt.InputChoice | src/auto_print/config_generator.py:38-68 | the prompt loop returns exactly what the specification `Choose` gives: the argument errors in order, then the first accepted line |
| Prompt.Choose | src/auto_print/config_generator.py:38-68 | `input_choice` as a function of the answer lines: an empty option list raises first; an answer comes only after all three argument checks pass, and consumes at least one line |
| Prompt.FirstAcceptedAnswers | src/auto_print/config_generator.py:60-68 | the answer comes from the first accepted line, and every earlier line was rejected |
| Prompt.EndOfInputIffAllRejected | src/auto_print/auto_print_config_generator.py:66-80 | the prompt runs out of input exactly when every line is rejected |
| Prompt.ChosenIsAnOption | src/auto_print/auto_print_config_generator.py:43-80 | a successful answer is one of the options, and at least one line was read |
| Prompt.TypedAnswerTakesOption | src/auto_print/config_generator.py:63-68 | a typed line that matches an option yields the first matching option, in both editors |
| Prompt.BlankAnswerSelectsDefault | src/auto_print/auto_print_config_generator.py:71-73 | a blank line gives the default when the options are distinct, in both editors |
| Prompt.StylesAgreeOnNonBlankAnswer | src/auto_print/auto_print_config_generator.py:75-78 | both editors judge every non-blank line alike |
| Prompt.StylesAgree | src/auto_print/auto_print_config_generator.py:43-80 | with options distinct ignoring case, the two versions of `input_choice` give the same result on every input |
| Prompt.ChoiceExamples | tests/config_generator_test.py:138-157 | the unit test's cases: a typed option is taken and a blank line takes the default |
| Prompt.ChoiceArgumentErrors | src/auto_print/config_generator.py:49-58 | empty options, a missing description and a default outside the options raise, and are checked in that order |
| Prompt.BoolDecisionMeaning | src/auto_print/config_generator.py:71-86 | the decision is true exactly when the answer is "yes" or "y"; the older `[0] == "y"` test and the newer `startswith("y")` agree; the only failure is end of input |
| Prompt.BoolDecision | src/auto_print/config_generator.py:71-86 | `bool_decision`: a decision consumes at least one line |
| Prompt.BoolDecisionBlankKeepsDefault | src/auto_print/auto_print_config_generator.py:92-95 | a blank line gives the default decision, and both editors agree on it |
| Prompt.BoolDecisionTypedExamples | tests/config_generator_test.py:117-135 | the unit test's typed cases: "y" against default no, "n" against default yes |
| Prompt.BoolDecisionBlankExamples | tests/config_generator_test.py:117-135 | the unit test's blank cases: the default decides |
| Ordering.Numerals | src/auto_print/config_generator.py:321 | the numbered positions are the numerals of 0 up to the end position, in order |
| Ordering.GetInsertPositionRange | src/auto_print/config_generator.py:310-328 | the position is "cancel", "c" or the numeral of a position from 0 to the end; "end" and "start" are normalised; the only failure is end of input |
| Ordering.GetInsertPosition | src/auto_print/config_generator.py:310-328 | `get_insert_position`: an answer consumes at least one line |
| Ordering.TypedPosition | src/auto_print/config_generator.py:319-328 | a typed position word or number is read as its option, normalised |
| Ordering.TypedPositionIsTaken | src/auto_print/auto_print_config_generator.py:299-309 | typing any position number selects exactly that position, in both editors |
| Ordering.CancelIsTaken | src/auto_print/config_generator.py:338-340 | typing "cancel" at the position prompt cancels |
| Ordering.InsertAt | src/auto_print/config_generator.py:354 | `list.insert(k, x)`: `x` at `k`, earlier elements in place, later ones shifted by one |
| Ordering.Rebuild | src/auto_print/config_generator.py:356-358 | rebuilding from a key list gives one entry per key, in the key order, each with its stored section |
| Ordering.PlaceAtIsInsertAt | src/auto_print/config_generator.py:353-358 | storing the new section and rebuilding from the extended key list is inserting the new entry at `k`; names stay unique |
| Ordering.InsertSectionPlaces | src/auto_print/config_generator.py:331-361 | an insertion puts the new section exactly at the chosen position and keeps the others in order; cancelling changes nothing; names stay unique; only end of input fails |
| Ordering.InsertSection | src/auto_print/config_generator.py:331-361 | `insert_section`: an insertion consumes at least the position line |
| Ordering.InsertAtKeepsUnique | src/auto_print/auto_print_config_generator.py:321-327 | inserting a fresh name keeps names unique |
| Ordering.Without | src/auto_print/config_generator.py:404-410 | keeps exactly the sections not named exactly `name` |
| Ordering.WithoutRemovesOne | src/auto_print/config_generator.py:404-410 | with unique names, dropping one name removes exactly its section |
| Ordering.DeleteSectionRemovesChosen | src/auto_print/config_generator.py:379-412 | an empty configuration is returned as is; otherwise the result is the same configuration (cancel) or the one without exactly the chosen section, the others in order |
| Ordering.DeleteSection | src/auto_print/config_generator.py:379-412 | `delete_section`: never reads more lines than there are |
| Ordering.WithoutIgnoringCaseRemovesOne | src/auto_print/config_generator.py:436-442 | with unique names, dropping a name ignoring case removes exactly its section |
| Ordering.TakeOut | src/auto_print/config_generator.py:436-443 | taking out the chosen section keeps the rest in order with unique names, and frees its name |
| Ordering.MovedIsPermutation | src/auto_print/config_generator.py:415-443 | a moved configuration holds the same sections |
| Ordering.ChangeSectionPositionCancelLoses | src/auto_print/config_generator.py:436-443 | as written, cancelling the position prompt returns the configuration without the chosen section |
| Ordering.ChangeSectionPositionCancelExample | src/auto_print/auto_print_config_generator.py:405-412 | on sections A and B, choosing A and then "cancel" leaves only B |
| Ordering.ChangeSectionPositionAsWritten | src/auto_print/config_generator.py:415-443 | `change_section_position` as both editors have it: never reads more lines than there are |
| Ordering.ChangeSectionPositionAsWrittenMeaning | src/auto_print/config_generator.py:415-443 | as written, a move keeps names unique and yields the configuration itself, the configuration without the chosen section (a cancelled position) or the chosen section moved; only end of input fails |
| Ordering.ChangeSectionPositionKeepsSections | src/auto_print/auto_print_config_generator.py:384-412 | the corrected move keeps every section and unique names; the result is the configuration itself or one section moved; only end of input fails |
| Ordering.ChangeSectionPosition | src/auto_print/auto_print_config_generator.py:384-412 | the corrected `change_section_position`, where a cancelled position keeps the configuration: never reads more lines than there are |
| SectionEditing.ReadLine | src/auto_print/config_generator.py:169 | reading a line consumes exactly one line, and fails only on empty input |
| SectionEditing.ConfigureFilter | src/auto_print/config_generator.py:157-188 | `configure_prefix` / `configure_suffix`: consumes one line |
| SectionEditing.ConfigureFilterMeaning | src/auto_print/config_generator.py:157-171 | the filter is present exactly when the answer holds text; it is then the stripped answer; nothing else changes |
| SectionEditing.ConfigurePrintSettingsMeaning | src/auto_print/config_generator.py:191-209 | afterwards `print` is a boolean; a printing section names a printer the system lists, a non-printing one the default printer; nothing else changes; other failures come only from an unusable printer list, and are classified |
| SectionEditing.ConfigurePrintSettings | src/auto_print/config_generator.py:191-209 | `configure_print_settings`: consumes at least one line |
| SectionEditing.ConfigureSwitchMeaning | src/auto_print/config_generator.py:212-221 | the switch is stored as a boolean and nothing else changes; only end of input fails |
| SectionEditing.ConfigureSwitchBlankKeeps | src/auto_print/config_generator.py:224-233 | a blank answer keeps the current value as Python reads it, or the fallback when there is none |
| SectionEditing.ConfigureSwitch | src/auto_print/config_generator.py:212-233 | `configure_display_settings` / `configure_activation`: consumes at least one line |
| SectionEditing.ConfigureFiltersMeaning | src/auto_print/auto_print_config_generator.py:197-217 | the filter questions leave valid filters and change nothing else |
| SectionEditing.ConfigureSwitchesMeaning | src/auto_print/auto_print_config_generator.py:238-248 | the show and active questions leave both as booleans and change nothing else |
| SectionEditing.EditPassMeaning | src/auto_print/config_generator.py:248-254 | after one pass the section is well formed and every setting the editor does not manage is kept |
| SectionEditing.KeepsChain | src/auto_print/config_generator.py:250-254 | the three steps of a pass together change only the editor's six settings |
| SectionEditing.EditPass | src/auto_print/config_generator.py:248-254 | one pass of the five configuration steps: consumes at least one line |
| SectionEditing.EditSectionMeaning | src/auto_print/config_generator.py:236-263 | the confirmed section is well formed and keeps every other setting; a failure is end of input or an unusable printer list |
| SectionEditing.EditSectionSpec | src/auto_print/config_generator.py:236-263 | `edit_section` as a function of the answer lines: a finished edit consumes at least one line |
| SectionEditing.EditSection | src/auto_print/auto_print_config_generator.py:184-257 | the editing loop returns exactly what `EditSectionSpec` gives |
| SectionEditing.AskNameMeaning | src/auto_print/config_generator.py:278-288 | the accepted name is the first acceptable line, stripped: non-empty, not in use ignoring case, not "cancel" or "c"; every earlier line was unacceptable |
| SectionEditing.AskNameSpec | src/auto_print/config_generator.py:278-288 | the name loop of `create_section`: an accepted name consumes at least one line |
| SectionEditing.CreateSectionMeaning | src/auto_print/config_generator.py:266-289 | a new section has a fresh, valid name and exactly the editor's settings, well formed |
| SectionEditing.CreateSectionSpec | src/auto_print/config_generator.py:266-289 | `create_section` as a function: a new section consumes at least one line |
| SectionEditing.CreateSection | src/auto_print/auto_print_config_generator.py:260-283 | the name loop followed by the editing loop returns exactly what `CreateSectionSpec` gives |
| Repair.RepairMeaning | src/auto_print/config_generator.py:506-539 | the repair keeps names and order; afterwards every printer is one the system lists; an unknown printer is replaced and nothing else in its section changes; other sections are unchanged |
| Repair.RepairSpec | src/auto_print/config_generator.py:506-539 | `repair_config` as a function of the answers: never reads more lines than there are |
| Repair.RepairNothingBroken | src/auto_print/config_generator.py:537-539 | with no unknown printer the configuration is unchanged and nothing is read |
| Repair.RepairConfig | src/auto_print/auto_print_config_generator.py:474-507 | the repair loop returns exactly what `RepairSpec` gives |
| Session.AlwaysOffered | src/auto_print/config_generator.py:494-503 | save, close, add, show and help (and their short forms) are always offered |
| Session.OfferedWithSections | src/auto_print/config_generator.py:494-501 | repair, delete and edit (and their short forms) are offered exactly when there is a section |
| Session.OfferedWithTwoSections | src/auto_print/config_generator.py:498-499 | change is offered exactly when there are two sections or more |
| Session.AvailableCommands | src/auto_print/config_generator.py:483-503 | `generate_list_of_available_commands`: between 9 and 16 commands, "close" always third |
| Session.AddSectionMeaning | src/auto_print/config_generator.py:363-376 | adding keeps the configuration (cancel) or inserts one well-formed section with a fresh valid name, the others in order; names stay unique |
| Session.AddSection | src/auto_print/config_generator.py:363-376 | `add_section`: an addition consumes at least one line |
| Session.EditSectionCommandMeaning | src/auto_print/config_generator.py:446-474 | editing keeps the names and their order; at most one section changes; it comes out well formed and keeps its other settings |
| Session.EditSectionCommand | src/auto_print/config_generator.py:446-474 | `edit_section_command`: never reads more lines than there are |
| Session.EditChosen | src/auto_print/config_generator.py:473 | the edited section replaces the chosen one in place |
| Session.CloseAsWrittenDiscardsOnBlank | src/auto_print/config_generator.py:570-576 | as written, a blank answer to the unsaved-changes question closes the session |
| Session.CloseKeepsSessionOnBlank | src/auto_print/config_generator.py:574 | with "no" as the default, as the "[n]" in the question announces (both editors pass `True` instead), a blank answer keeps the session open |
| Session.Close | src/auto_print/config_generator.py:570-577 | the close command: it keeps the state, and never reads more lines than there are |
| Session.AsWrittenBlankCloseEndsSession | src/auto_print/config_generator.py:570-577 | as written, "close" and then a blank line end a session that has unsaved changes, with the changes unsaved |
| Session.CorrectedBlankCloseContinues | src/auto_print/auto_print_config_generator.py:552-555 | corrected, "close" and then a blank line keep the session going with its unsaved changes |
| Session.HandleActionMeaning | src/auto_print/config_generator.py:542-581 | in either build (as written or corrected): only save writes the file, and it writes the current configuration; only the editing commands change the configuration; only close ends the session, either at once when the file holds the configuration or on the user's yes to a question whose blank answer is the build's default; names stay unique |
| Session.HandleAction | src/auto_print/config_generator.py:542-581 | `handle_action`: keeps names unique and never reads more lines than there are |
| Session.ChangePositionKeepsUnique | src/auto_print/config_generator.py:566-567 | the change command keeps names unique in either build; only end of input fails |
| Session.DeleteKeepsUnique | src/auto_print/auto_print_config_generator.py:537-538 | deleting keeps names unique; only end of input fails |
| Session.RepairKeepsUnique | src/auto_print/auto_print_config_generator.py:539-540 | repairing keeps names unique and leaves only known printers |
| Session.SessionMeaning | src/auto_print/config_generator.py:584-604 | in either build, over a whole session names stay unique, the file holds the initial or a valid configuration, and a failure is end of input or an unusable printer list |
| Session.SessionSpec | src/auto_print/config_generator.py:584-604 | `main()` as a function of the answers: a finished session consumes at least one line |
| Session.CloseWhenSavedEnds | src/auto_print/auto_print_config_generator.py:549-551 | "close" with nothing unsaved ends the session at once, with the state unchanged |
| Session.SaveThenCloseEnds | src/auto_print/config_generator.py:555-572 | "save" then "close" ends the session without asking, with the file holding the configuration |
| Session.EditedSectionsJudgedAlike | src/auto_print/auto_print_config_generator.py:222-248 | sections the editor writes are judged alike by the packaged and the rewritten executor |
| Session.RunAction | src/auto_print/config_generator.py:542-581 | one command, run with the imperative create, edit and repair loops, gives exactly what `HandleAction` gives |
| Session.RunSession | src/auto_print/config_generator.py:584-604 | the command loop gives exactly what `SessionSpec` gives |

## Left out

- Printing, opening files, logging, console output, the browser help page and the display of
  sections (`print_element`, `print_configuration`, `display_insert_positions`) are not modelled.
  Only their place in the trace of actions, or their absence, is.
- Reading and writing the configuration file is not modelled. The JSON document is assumed to be an
  object of objects whose settings are JSON scalars.
- The executors' checks that the file exists and that the configuration parses are parameters of
  the `Environment`, and so are `os.path.basename`, the default printer and whether Ghostscript
  imports.
- The printer list and the default printer the editor uses are a `Printers` parameter.
- `load_config() == config` in the close command is a parameter `equal`. The equality of the
  third-party `CaseInsensitiveDict` and the disk round trip are not visible.
- `save_config` is modelled as storing the current configuration. The older editor writes
  `config_object.__dict__`, whose JSON shape depends on the dictionary library's internals; that
  shape is not modelled.
- `CaseInsensitiveDict` is not part of this model beyond what the editor relies on: lookup and
  membership ignore case, and a store keeps an existing entry's position under the new spelling.
- `str.strip`, `str.lower` and `str.isspace` are modelled for ASCII only. Unicode case mapping and
  Unicode whitespace are left out.
- `Dispatch.Matches`: a truthy non-string filter makes `startswith` raise `TypeError`. This is
  modelled as the run ending in an exception, without the message.
- In-place mutation is modelled as values: `repair_config` and `edit_section_command` mutate the
  dictionary they are given. Only the editor uses that dictionary afterwards, so no aliasing is
  observable.
- Session.HandleAction: the session is modelled in two builds, `AsWritten` (the move and the close
  default as both editors have them) and `Corrected`. Besides what holds in both builds, the model
  proves the intended behaviour of the two flawed steps only for `Corrected`.
- `Prompt.StylesAgree` needs options that are distinct ignoring case. With duplicates, the older
  editor may return an earlier option that differs from the default only in case. The model keeps
  that difference; it is not proved away.

## Findings

| source | as written | input that shows it | evidently intended | confidence | as-written member | corrected member |
|---|---|---|---|---|---|---|
| src/auto_print/config_generator.py:436-443 | the section to move is removed first, and a cancelled position prompt returns the configuration without it; the newer editor has the same code at src/auto_print/auto_print_config_generator.py:405-412 | sections A and B; choose "A", then answer "cancel": only B remains, and saving makes the loss permanent | cancelling a move leaves the configuration unchanged, as cancelling an insertion or a deletion does | high, not executed | Ordering.ChangeSectionPositionCancelExample | Ordering.ChangeSectionPositionKeepsSections |
| src/auto_print/execute.py:249-251 | `section.get("active", "false")`, and likewise `print`, default to the string "false", which Python treats as true; the legacy scripts `auto_print.py` and `main.py` do the same | a section with no settings at all: the packaged executor prints every file on the default printer | a missing `active` means inactive and a missing `print` means open only, as the rewritten executor's boolean defaults say | medium, not executed | Scripts.BareSectionPrints | Scripts.NewExecutorSkipsUnsetActive |
| src/auto_print/config_generator.py:573-576 | the question ends in "[n]" but passes `True` as the default, so a blank answer means yes; the newer editor passes `default=True` too, at src/auto_print/auto_print_config_generator.py:552-555 | unsaved changes, "close", then a blank line: the session ends and the changes are lost | a blank answer keeps the session open, as the "[n]" in the question announces | medium, not executed | Session.AsWrittenBlankCloseEndsSession | Session.CorrectedBlankCloseContinues |
